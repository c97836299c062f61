/** `createOrUpdatePage` of `esmp_js.js`: the guard, the parse of the base
    name, and the search-then-create loop that retries only on an HTTP 409.

    The record store's answers are a script: `script[k]` holds what the
    store answers in the loop's k-th pass. Every pass either leaves the loop
    or increments `attempts`, so the pass that starts with `attempts == k`
    is the k-th and reads `script[k]`. */
module Retry {
  import opened Common
  import opened FileName
  import opened Guard

  const MaxRetries: nat := 5
  const BackoffStep: nat := 1000

  /** The page a create sends: title, id text, the one status, and the
      upload's URL (absent when the upload failed). */
  datatype NewPage = NewPage(title: string, id: string, status: string, link: Option<Url>)

  /** What the loop does, in order: search for the title, upload the file,
      create the page, wait before retrying. */
  datatype Action = Search(title: string) | Upload(name: string) | Create(page: NewPage) | Sleep(ms: nat)

  /** The store's answers in one pass: the search's results, the upload's
      URL, and the create's page id. The last two are read only when the
      search finds nothing. */
  datatype Exchange = Exchange(search: Outcome<seq<PageId>>, upload: Option<Url>, create: Outcome<PageId>)

  /** How the loop ended: a page was created; the search found a page;
      an error other than 409 (with its HTTP status, or none when no
      response came); five conflicts in a row. */
  datatype Ending = Created(pageId: PageId) | Found | Abandoned(status: Option<int>) | Exhausted

  /** One pass of the loop body: what it did, the title index after it,
      and how the loop ends, or `None` when a 409 sends it round again. */
  datatype Pass = Pass(actions: seq<Action>, index: map<string, PageId>, ending: Option<Ending>)

  /** The whole loop: its passes in order, the final `attempts`, the title
      index and how it ended. */
  datatype Run = Run(passes: seq<Pass>, attempts: nat, index: map<string, PageId>, ending: Ending)

  /** The pass hit a 409, from the search or from the create that follows an
      empty search. */
  predicate Conflicted(e: Exchange) {
    || e.search == HttpError(ConflictStatus)
    || (e.search == Success([]) && e.create == HttpError(ConflictStatus))
  }

  /** The `catch` block: a 409 goes round again (`None`), any other status
      or a missing response leaves the loop. */
  function Caught(status: Option<int>): Option<Ending> {
    if status == Some(ConflictStatus) then None else Some(Abandoned(status))
  }

  /** How a pass whose search did not come back empty ends. */
  function SearchEnding(search: Outcome<seq<PageId>>): Option<Ending> {
    match search
    case Success(_) => Some(Found)
    case HttpError(status) => Caught(Some(status))
    case NoResponse => Caught(None)
  }

  /** How a pass that sent a create ends. */
  function CreateEnding(create: Outcome<PageId>): Option<Ending> {
    match create
    case Success(pid) => Some(Created(pid))
    case HttpError(status) => Caught(Some(status))
    case NoResponse => Caught(None)
  }

  /** `fileToPageId[title] = pageId`, done only once the create answered. */
  function Record(index: map<string, PageId>, title: string, ending: Option<Ending>): map<string, PageId> {
    if ending.Some? && ending.value.Created? then index[title := ending.value.pageId] else index
  }

  /** One pass of the `try` block and its `catch`. */
  function Body(item: ParsedName, name: string, e: Exchange, index: map<string, PageId>): (b: Pass)
    ensures |b.actions| > 0 && b.actions[0] == Search(item.title)
    ensures forall i :: 1 <= i < |b.actions| ==> !b.actions[i].Search? && !b.actions[i].Sleep?
    ensures b.ending.None? <==> Conflicted(e)
    ensures b.ending != Some(Exhausted)
    ensures b.ending.Some? && b.ending.value.Created? ==> e.search == Success([]) && e.create == Success(b.ending.value.pageId)
    ensures b.ending == Some(Found) ==> e.search.Success? && |e.search.value| > 0
    ensures b.index == if b.ending.Some? && b.ending.value.Created? then index[item.title := b.ending.value.pageId] else index
  {
    if e.search == Success([]) then
      var ending := CreateEnding(e.create);
      Pass([Search(item.title), Upload(name), Create(NewPage(item.title, item.id, item.status, e.upload))],
           Record(index, item.title, ending), ending)
    else Pass([Search(item.title)], index, SearchEnding(e.search))
  }

  /** The pass sent a create request. */
  predicate SendsCreate(p: Pass) {
    exists i :: 0 <= i < |p.actions| && p.actions[i].Create?
  }

  /** A pass creates a page exactly when its search found nothing and the
      create answered, and stops on a found page exactly when the search
      returned results; a create request goes out exactly when the search
      found nothing, and it carries the upload's URL whether or not the
      upload succeeded. */
  lemma BodyOutcome(item: ParsedName, name: string, e: Exchange, index: map<string, PageId>, pid: PageId)
    ensures var b := Body(item, name, e, index);
      && (b.ending == Some(Created(pid)) <==> e.search == Success([]) && e.create == Success(pid))
      && (b.ending == Some(Found) <==> e.search.Success? && |e.search.value| > 0)
      && (SendsCreate(b) <==> e.search == Success([]))
      && (e.search == Success([]) ==> Create(NewPage(item.title, item.id, item.status, e.upload)) in b.actions)
  {
    var b := Body(item, name, e, index);
    if e.search == Success([]) {
      assert b.actions[2] == Create(NewPage(item.title, item.id, item.status, e.upload));
    } else {
      assert b.actions == [Search(item.title)];
    }
  }

  /** The value of `attempts` when the loop stops: the first pass from
      `attempts` on that did not hit a 409, or `MaxRetries` when all did. */
  function Stop(script: seq<Exchange>, attempts: nat): (n: nat)
    requires attempts <= MaxRetries <= |script|
    ensures attempts <= n <= MaxRetries
    ensures forall k :: attempts <= k < n ==> Conflicted(script[k])
    ensures n < MaxRetries ==> !Conflicted(script[n])
    decreases MaxRetries - attempts
  {
    if attempts == MaxRetries || !Conflicted(script[attempts]) then attempts
    else Stop(script, attempts + 1)
  }

  /** `count` passes of the loop body on the answers from `attempts` on. */
  function Passes(item: ParsedName, name: string, script: seq<Exchange>, attempts: nat, count: nat, index: map<string, PageId>): (passes: seq<Pass>)
    requires attempts + count <= |script|
    ensures |passes| == count
    ensures forall k :: 0 <= k < count ==> passes[k] == Body(item, name, script[attempts + k], index)
  {
    seq(count, k requires 0 <= k < count => Body(item, name, script[attempts + k], index))
  }

  /** Passes run on the answers from `attempts` on go round exactly until
      the stopping pass. */
  lemma PassEndings(item: ParsedName, name: string, script: seq<Exchange>, attempts: nat, index: map<string, PageId>, n: nat, passes: seq<Pass>)
    requires attempts <= MaxRetries <= |script|
    requires n == Stop(script, attempts)
    requires |passes| <= MaxRetries - attempts && |passes| <= n - attempts + 1
    requires forall k :: 0 <= k < |passes| ==> passes[k] == Body(item, name, script[attempts + k], index)
    ensures forall k :: 0 <= k < |passes| ==> (passes[k].ending.None? <==> attempts + k < n)
  {
    forall k | 0 <= k < |passes|
      ensures passes[k].ending.None? <==> attempts + k < n
    {
      assert passes[k] == Body(item, name, script[attempts + k], index);
    }
  }

  /** The `while (attempts < maxRetries)` loop from a given `attempts`: the
      passes are the loop body run on successive answers with the index as
      it was, every pass but the last hit a 409, and the index changes only
      by the page the last pass created. */
  function Loop(item: ParsedName, name: string, script: seq<Exchange>, attempts: nat, index: map<string, PageId>): (r: Run)
    requires attempts <= MaxRetries <= |script|
    ensures attempts <= r.attempts <= MaxRetries
    ensures r.ending.Exhausted? <==> r.attempts == MaxRetries
    ensures |r.passes| == r.attempts - attempts + (if r.ending.Exhausted? then 0 else 1)
    ensures forall k :: 0 <= k < |r.passes| ==> r.passes[k] == Body(item, name, script[attempts + k], index)
    ensures forall k :: 0 <= k < |r.passes| ==> (r.passes[k].ending.None? <==> attempts + k < r.attempts)
    ensures !r.ending.Exhausted? ==> r.passes[|r.passes| - 1].ending == Some(r.ending)
    ensures r.index == if r.ending.Created? then index[item.title := r.ending.pageId] else index
  {
    var n := Stop(script, attempts);
    var count := n - attempts + (if n == MaxRetries then 0 else 1);
    var passes := Passes(item, name, script, attempts, count, index);
    PassEndings(item, name, script, attempts, index, n, passes);
    if n == MaxRetries then Run(passes, n, index, Exhausted)
    else
      var last := Body(item, name, script[n], index);
      Run(passes, n, last.index, last.ending.value)
  }

  /** The loop goes round exactly while the store answers 409: every pass
      it repeated was a conflict, the pass it left on was not, and a created
      or found page comes from that last pass's answers. */
  lemma LoopConflicts(item: ParsedName, name: string, script: seq<Exchange>, attempts: nat, index: map<string, PageId>)
    requires attempts <= MaxRetries <= |script|
    ensures var r := Loop(item, name, script, attempts, index);
      && (forall k :: attempts <= k < r.attempts ==> Conflicted(script[k]))
      && (r.attempts < MaxRetries ==> !Conflicted(script[r.attempts]))
      && (r.ending.Created? ==> script[r.attempts].search == Success([]) && script[r.attempts].create == Success(r.ending.pageId))
      && (r.ending.Found? ==> script[r.attempts].search.Success? && |script[r.attempts].search.value| > 0)
  {
    var r := Loop(item, name, script, attempts, index);
    RunStops(item, name, script, attempts, index, r);
    if r.attempts < MaxRetries {
      assert r.passes[r.attempts - attempts] == Body(item, name, script[r.attempts], index);
    }
  }

  /** What the loop sends and waits for, in order: each pass's requests,
      and after each pass that hit a 409 a wait of 1000 ms times the
      incremented `attempts`. */
  function Trace(passes: seq<Pass>, attempts: nat): seq<Action>
    decreases |passes|
  {
    if |passes| == 0 then []
    else
      passes[0].actions
      + (if passes[0].ending.None? then [Sleep(BackoffStep * (attempts + 1))] else [])
      + Trace(passes[1..], attempts + 1)
  }

  /** The number of searches among the actions. */
  function Searches(actions: seq<Action>): nat {
    if |actions| == 0 then 0 else (if actions[0].Search? then 1 else 0) + Searches(actions[1..])
  }

  /** The waits among the actions, in order. */
  function Sleeps(actions: seq<Action>): seq<nat> {
    if |actions| == 0 then [] else (if actions[0].Sleep? then [actions[0].ms] else []) + Sleeps(actions[1..])
  }

  lemma {:induction false} CountsAppend(a: seq<Action>, b: seq<Action>)
    ensures Searches(a + b) == Searches(a) + Searches(b)
    ensures Sleeps(a + b) == Sleeps(a) + Sleeps(b)
    decreases |a|
  {
    if |a| > 0 {
      assert (a + b)[1..] == a[1..] + b;
      CountsAppend(a[1..], b);
    } else {
      assert a + b == b;
    }
  }

  /** A pass that starts with a search and sends no other search or
      wait. */
  predicate OneSearch(p: Pass) {
    && |p.actions| > 0 && p.actions[0].Search?
    && forall i :: 1 <= i < |p.actions| ==> !p.actions[i].Search? && !p.actions[i].Sleep?
  }

  lemma {:induction false} OneSearchCounts(actions: seq<Action>)
    requires forall i :: 0 <= i < |actions| ==> !actions[i].Search? && !actions[i].Sleep?
    ensures Searches(actions) == 0 && Sleeps(actions) == []
  {
    if |actions| > 0 {
      OneSearchCounts(actions[1..]);
    }
  }

  /** The waits after the conflicts numbered `lo + 1` up to `hi`: each is
      `1000 * attempts` once `attempts` has been incremented. */
  function Backoff(lo: nat, hi: nat): (delays: seq<nat>)
    requires lo <= hi
    ensures |delays| == hi - lo
    ensures forall k :: 0 <= k < |delays| ==> delays[k] == BackoffStep * (lo + k + 1)
    decreases hi - lo
  {
    if lo == hi then [] else [BackoffStep * (lo + 1)] + Backoff(lo + 1, hi)
  }

  /** Passes with one search each, where the first `n` hit a 409 and any
      pass after them did not, search once per pass and wait 1000, 2000, …
      ms after each of the `n` conflicts. */
  lemma {:induction false} TraceCounts(passes: seq<Pass>, attempts: nat, n: nat)
    requires n <= |passes| <= n + 1
    requires forall k :: 0 <= k < |passes| ==> OneSearch(passes[k])
    requires forall k :: 0 <= k < |passes| ==> (passes[k].ending.None? <==> k < n)
    ensures Searches(Trace(passes, attempts)) == |passes|
    ensures Sleeps(Trace(passes, attempts)) == Backoff(attempts, attempts + n)
    decreases |passes|
  {
    if |passes| > 0 {
      var p := passes[0];
      var pause := if p.ending.None? then [Sleep(BackoffStep * (attempts + 1))] else [];
      var rest := Trace(passes[1..], attempts + 1);
      assert p.actions == [p.actions[0]] + p.actions[1..];
      OneSearchCounts(p.actions[1..]);
      CountsAppend([p.actions[0]], p.actions[1..]);
      CountsAppend(p.actions, pause);
      CountsAppend(p.actions + pause, rest);
      if n > 0 {
        TraceCounts(passes[1..], attempts + 1, n - 1);
      } else {
        assert passes[1..] == [];
      }
    }
  }

  /** The loop searches once per pass, so at most five times, and waits
      1000, 2000, … ms, one wait per conflict. */
  lemma LoopTrace(item: ParsedName, name: string, script: seq<Exchange>, attempts: nat, index: map<string, PageId>)
    requires attempts <= MaxRetries <= |script|
    ensures var r := Loop(item, name, script, attempts, index);
      && Searches(Trace(r.passes, attempts)) == |r.passes| <= MaxRetries - attempts
      && Sleeps(Trace(r.passes, attempts)) == Backoff(attempts, r.attempts)
  {
    var r := Loop(item, name, script, attempts, index);
    forall k | 0 <= k < |r.passes|
      ensures OneSearch(r.passes[k])
    {
      assert r.passes[k] == Body(item, name, script[attempts + k], index);
    }
    TraceCounts(r.passes, attempts, r.attempts - attempts);
  }

  /** A pass sends a create exactly when its search found nothing. */
  lemma LoopCreates(item: ParsedName, name: string, script: seq<Exchange>, attempts: nat, index: map<string, PageId>)
    requires attempts <= MaxRetries <= |script|
    ensures var r := Loop(item, name, script, attempts, index);
      forall k :: 0 <= k < |r.passes| ==> (SendsCreate(r.passes[k]) <==> script[attempts + k].search == Success([]))
  {
    var r := Loop(item, name, script, attempts, index);
    forall k | 0 <= k < |r.passes|
      ensures SendsCreate(r.passes[k]) <==> script[attempts + k].search == Success([])
    {
      assert r.passes[k] == Body(item, name, script[attempts + k], index);
      BodyOutcome(item, name, script[attempts + k], index, "");
    }
  }

  /** Five conflicts in a row: five searches with waits of 1000 to 5000 ms
      after them, then the loop gives up with no page created and the index
      untouched. */
  lemma AllConflicts(item: ParsedName, name: string, script: seq<Exchange>, index: map<string, PageId>)
    requires MaxRetries <= |script|
    requires forall k :: 0 <= k < MaxRetries ==> Conflicted(script[k])
    ensures var r := Loop(item, name, script, 0, index);
      && r.ending == Exhausted && r.attempts == MaxRetries && r.index == index
      && Searches(Trace(r.passes, 0)) == MaxRetries
      && Sleeps(Trace(r.passes, 0)) == [1000, 2000, 3000, 4000, 5000]
  {
    var r := Loop(item, name, script, 0, index);
    assert r.attempts == MaxRetries by {
      LoopConflicts(item, name, script, 0, index);
    }
    LoopTrace(item, name, script, 0, index);
    var d := Backoff(0, MaxRetries);
    assert d == [d[0], d[1], d[2], d[3], d[4]];
  }

  /** An error other than 409 on a search ends the loop at once: one
      search, no wait, no create, the index untouched. */
  lemma OtherErrorStops(item: ParsedName, name: string, script: seq<Exchange>, attempts: nat, index: map<string, PageId>)
    requires attempts < MaxRetries <= |script|
    requires script[attempts].search == NoResponse
          || (script[attempts].search.HttpError? && script[attempts].search.status != ConflictStatus)
    ensures var r := Loop(item, name, script, attempts, index);
      && r.attempts == attempts && r.index == index
      && r.ending == Abandoned(if script[attempts].search.HttpError? then Some(script[attempts].search.status) else None)
      && Trace(r.passes, attempts) == [Search(item.title)]
  {
    var r := Loop(item, name, script, attempts, index);
    assert r.passes == [Body(item, name, script[attempts], index)];
    assert Trace(r.passes[1..], attempts + 1) == [];
  }

  /** Any run whose passes are the bodies over the script, and which goes
      round exactly while its passes end in nothing, stops at the first
      answer that is not a 409. */
  lemma RunStops(item: ParsedName, name: string, script: seq<Exchange>, attempts: nat, index: map<string, PageId>, r: Run)
    requires attempts <= MaxRetries <= |script|
    requires attempts <= r.attempts <= MaxRetries
    requires r.ending.Exhausted? <==> r.attempts == MaxRetries
    requires |r.passes| == r.attempts - attempts + (if r.ending.Exhausted? then 0 else 1)
    requires forall k :: 0 <= k < |r.passes| ==> r.passes[k] == Body(item, name, script[attempts + k], index)
    requires forall k :: 0 <= k < |r.passes| ==> (r.passes[k].ending.None? <==> attempts + k < r.attempts)
    ensures forall j :: attempts <= j < r.attempts ==> Conflicted(script[j])
    ensures r.attempts < MaxRetries ==> !Conflicted(script[r.attempts])
  {
    forall j | attempts <= j < r.attempts
      ensures Conflicted(script[j])
    {
      assert r.passes[j - attempts] == Body(item, name, script[j], index);
    }
    if r.attempts < MaxRetries {
      assert r.passes[r.attempts - attempts] == Body(item, name, script[r.attempts], index);
    }
  }

  /** `Loop` is the only run with the properties its contract states. */
  lemma LoopUnique(item: ParsedName, name: string, script: seq<Exchange>, attempts: nat, index: map<string, PageId>, r: Run)
    requires attempts <= MaxRetries <= |script|
    requires attempts <= r.attempts <= MaxRetries
    requires r.ending.Exhausted? <==> r.attempts == MaxRetries
    requires |r.passes| == r.attempts - attempts + (if r.ending.Exhausted? then 0 else 1)
    requires forall k :: 0 <= k < |r.passes| ==> r.passes[k] == Body(item, name, script[attempts + k], index)
    requires forall k :: 0 <= k < |r.passes| ==> (r.passes[k].ending.None? <==> attempts + k < r.attempts)
    requires !r.ending.Exhausted? ==> r.passes[|r.passes| - 1].ending == Some(r.ending)
    requires r.index == if r.ending.Created? then index[item.title := r.ending.pageId] else index
    ensures r == Loop(item, name, script, attempts, index)
  {
    var l := Loop(item, name, script, attempts, index);
    assert r.attempts == l.attempts by {
      RunStops(item, name, script, attempts, index, r);
      RunStops(item, name, script, attempts, index, l);
    }
    assert r.passes == l.passes;
    assert r.ending == l.ending;
  }

  /** The loop as the source writes it, with its `break`s. */
  method CreateOrUpdateLoop(item: ParsedName, name: string, script: seq<Exchange>, index: map<string, PageId>)
    returns (r: Run)
    requires MaxRetries <= |script|
    ensures r == Loop(item, name, script, 0, index)
  {
    var passes: seq<Pass> := [];
    var attempts: nat := 0;
    while attempts < MaxRetries
      invariant attempts <= MaxRetries && |passes| == attempts
      invariant forall k :: 0 <= k < attempts ==> passes[k] == Body(item, name, script[k], index)
      invariant forall k :: 0 <= k < attempts ==> passes[k].ending.None?
      decreases MaxRetries - attempts
    {
      var b := Body(item, name, script[attempts], index);
      passes := passes + [b];
      if b.ending.Some? {
        r := Run(passes, attempts, b.index, b.ending.value);
        LoopUnique(item, name, script, 0, index, r);
        return;
      }
      attempts := attempts + 1;
    }
    r := Run(passes, attempts, index, Exhausted);
    LoopUnique(item, name, script, 0, index, r);
  }

  /** What a call did: the session after it, its steps, and how its loop
      ended (`None` when the guard turned it away). */
  datatype Call = Call(session: Session, steps: seq<Step<Action>>, ending: Option<Ending>)

  /** `createOrUpdatePage(fileBaseName)` of `esmp_js.js`. */
  function CreateOrUpdatePage(s: Session, name: string, script: seq<Exchange>): (c: Call)
    requires MaxRetries <= |script|
    ensures Held(s.processing, name) ==> c == Call(s, [], None)
    ensures !Held(s.processing, name) ==>
      && c.ending.Some?
      && c.session.processing == s.processing
      && |c.steps| >= 3 && c.steps[0] == Mark(name) && c.steps[|c.steps| - 1] == Unmark(name)
      && (forall i :: 0 < i < |c.steps| - 1 ==> c.steps[i].Send?)
      && (forall i :: 0 <= i < |c.steps| && c.steps[i].Send? ==> Held(Replay(s.processing, c.steps[..i]), name))
  {
    if Held(s.processing, name) then Call(s, [], None)
    else
      var item := ParseName(name);
      var r := Loop(item, name, script, 0, s.index);
      var actions := Trace(r.passes, 0);
      var steps := Guarded(name, actions);
      GuardedHolds(s.processing, name, actions);
      assert |actions| > 0 by {
        assert r.passes[0] == Body(item, name, script[0], s.index);
      }
      Call(Session(Replay(s.processing, steps), r.index), steps, Some(r.ending))
  }

  /** A second trigger for a name whose call is still in flight reaches the
      store not at all: the first call's mark turns it away. */
  lemma DuplicateTriggerDropped(s: Session, name: string, first: seq<Exchange>, second: seq<Exchange>)
    requires MaxRetries <= |first| && MaxRetries <= |second|
    requires !Held(s.processing, name)
    ensures var during := Session(Replay(s.processing, CreateOrUpdatePage(s, name, first).steps[..1]), s.index);
      CreateOrUpdatePage(during, name, second) == Call(during, [], None)
  {
    var steps := CreateOrUpdatePage(s, name, first).steps;
    assert steps[..1] == [Mark(name)];
    assert Replay(s.processing, steps[..1]) == s.processing + {name};
  }

  /** The title index changes only by recording a created page under the
      parsed title. */
  lemma CallIndex(s: Session, name: string, script: seq<Exchange>)
    requires MaxRetries <= |script|
    ensures var c := CreateOrUpdatePage(s, name, script);
      c.session.index == if c.ending.Some? && c.ending.value.Created?
        then s.index[ParseName(name).title := c.ending.value.pageId]
        else s.index
  {
  }
}
