/** `esmp_test.js`: list the database's pages, archive the ones no local
    file claims, then create or update a page for every local file.

    The store's answers are parameters: the listing answers each query in
    turn, `archive` answers the archive request for a page id, and
    `answers` gives, for a base name, what the store answers to that
    name's search and to the write that follows it. */
module Sync {
  import opened Common
  import opened Text
  import opened FileName
  import opened Guard

  /** A page of the listing: its id and the text of its `Song` title. */
  datatype RemotePage = RemotePage(id: PageId, title: string)

  /** The requests `esmp_test.js` sends: a query for the pages whose title
      equals a title, a patch of an existing page, a new page, an archive,
      and one query of the paginated listing. A field that is `undefined`
      in the source is `None`. */
  datatype Request =
    | Query(title: Option<string>)
    | Patch(pageId: PageId, id: string, status: Option<string>)
    | Insert(title: Option<string>, id: string, status: Option<string>)
    | Archive(pageId: PageId)
    | List(cursor: Option<string>)

  /** What the store answers one call: the search's result ids, and the
      answer to the patch or create that follows (only its success is read
      after a patch, the new page's id after a create). */
  datatype Answers = Answers(search: Outcome<seq<PageId>>, write: Outcome<PageId>)

  /** The property key `fileToPageId[title]` uses: a missing field is the
      value `undefined`, whose key is the text "undefined". */
  function KeyOf(title: Option<string>): (key: string)
    ensures title.Some? ==> key == title.value
  {
    if title.Some? then title.value else "undefined"
  }

  /** What one call sent, in order, and the title index after it. */
  datatype Visit = Visit(requests: seq<Request>, index: map<string, PageId>)

  /** The `try` block of `createOrUpdatePage`: search by title; with
      results, record the first result's id and patch that page; with none,
      create a page and record its id once the create answered. Any error
      is caught and ends the block. */
  function Attempt(f: Fields, a: Answers, index: map<string, PageId>): (v: Visit)
    ensures 1 <= |v.requests| <= 2 && v.requests[0] == Query(f.title)
    ensures forall i :: 0 <= i < |v.requests| ==> Phase(v.requests[i]) == 2
  {
    var key := KeyOf(f.title);
    match a.search
    case Success(results) =>
      if |results| > 0 then
        Visit([Query(f.title), Patch(results[0], f.id, f.status)], index[key := results[0]])
      else
        Visit([Query(f.title), Insert(f.title, f.id, f.status)],
              if a.write.Success? then index[key := a.write.value] else index)
    case _ => Visit([Query(f.title)], index)
  }

  /** The three outcomes of a call's `try` block. A search with results
      leads to a patch of the first result and records that id before the
      patch is sent, so a failed patch leaves it recorded; an empty search
      leads to a create, whose id is recorded exactly when the create
      answered; a failed search sends nothing more and records nothing. A
      call never sends both a patch and a create. */
  lemma AttemptCases(f: Fields, a: Answers, index: map<string, PageId>)
    ensures var v := Attempt(f, a, index);
      && (a.search.Success? && |a.search.value| > 0 <==> |v.requests| == 2 && v.requests[1].Patch?)
      && (a.search == Success([]) <==> |v.requests| == 2 && v.requests[1].Insert?)
      && (!a.search.Success? <==> |v.requests| == 1)
  {
  }

  /** The index after a call's `try` block: only the title's key can
      change, and it changes to the first result's id after a search with
      results (whatever the patch answered), to the new page's id after a
      create that answered, and not at all otherwise. */
  lemma AttemptIndex(f: Fields, a: Answers, index: map<string, PageId>)
    ensures var v := Attempt(f, a, index);
      var key := KeyOf(f.title);
      && (forall k :: k != key ==> (k in v.index <==> k in index))
      && (forall k :: k != key && k in index ==> v.index[k] == index[k])
      && (a.search.Success? && |a.search.value| > 0 ==> key in v.index && v.index[key] == a.search.value[0])
      && (a.search == Success([]) && a.write.Success? ==> key in v.index && v.index[key] == a.write.value)
      && (a.search == Success([]) && !a.write.Success? ==> v.index == index)
      && (!a.search.Success? ==> v.index == index)
  {
  }

  /** One call's marks, requests and clears, and the session after it. */
  datatype Call = Call(session: Session, steps: seq<Step<Request>>)

  /** `createOrUpdatePage(fileBaseName)` of `esmp_test.js`: the guard on
      the base name, the three-field parse, the `try` block, and the
      `finally` that clears the mark whatever happened. */
  function CreateOrUpdatePage(s: Session, name: string, a: Answers): (c: Call)
    ensures Held(s.processing, name) ==> c == Call(s, [])
    ensures !Held(s.processing, name) ==>
      && c.session.processing == s.processing
      && 3 <= |c.steps| <= 4 && c.steps[0] == Mark(name) && c.steps[|c.steps| - 1] == Unmark(name)
      && c.steps[1] == Send(Query(ParseFields(name).title))
      && (forall i :: 0 < i < |c.steps| - 1 ==> c.steps[i].Send?)
      && (forall i :: 0 <= i < |c.steps| && c.steps[i].Send? ==> Held(Replay(s.processing, c.steps[..i]), name))
  {
    if Held(s.processing, name) then Call(s, [])
    else
      var v := Attempt(ParseFields(name), a, s.index);
      var steps := Guarded(name, v.requests);
      GuardedHolds(s.processing, name, v.requests);
      Call(Session(Replay(s.processing, steps), v.index), steps)
  }

  /** The `finally` clears the mark even when the search fails: the call
      is then mark, the search, clear, and the index is untouched. */
  lemma ReleasedOnError(s: Session, name: string, a: Answers)
    requires !Held(s.processing, name) && !a.search.Success?
    ensures var c := CreateOrUpdatePage(s, name, a);
      && c.steps == [Mark(name), Send(Query(ParseFields(name).title)), Unmark(name)]
      && c.session == s
  {
  }

  /** `archivePage(pageId, pageTitle)`: a successful archive drops the
      title from the index and nothing else; a failed one is logged and
      swallowed, leaving the index as it was. */
  function ArchivePage(index: map<string, PageId>, title: string, answer: Outcome<()>): (r: map<string, PageId>)
    ensures answer.Success? ==> title !in r && r.Keys == index.Keys - {title}
    ensures answer.Success? ==> forall k :: k in r ==> r[k] == index[k]
    ensures !answer.Success? ==> r == index
  {
    if answer.Success? then index - {title} else index
  }

  // ---------------------------------------------------------------------
  // Listing (`getNotionPages`)

  /** One answer of the paginated listing. */
  datatype Batch = Batch(results: seq<RemotePage>, hasMore: bool, nextCursor: Option<string>)

  /** How the listing ended: an answer said there was no more; a query
      failed (the promise rejects and the caller stops); or the answers
      given ran out while the store still said there was more. */
  datatype ListEnd = Complete | Failed | Unanswered

  /** The cursors sent, one per query that was answered, the pages
      gathered, and how the listing ended. */
  datatype Listing = Listing(cursors: seq<Option<string>>, pages: seq<RemotePage>, end: ListEnd)

  /** `while (hasMore)`: query with the current cursor, append the batch,
      continue from the batch's `next_cursor` while it says `has_more`. */
  function Fetch(script: seq<Outcome<Batch>>, cursor: Option<string>): (r: Listing)
    ensures |r.cursors| <= |script|
    ensures |r.cursors| > 0 ==> r.cursors[0] == cursor
    ensures r.end == Unanswered <==> |r.cursors| == |script| && (|script| == 0 || (script[|script| - 1].Success? && script[|script| - 1].value.hasMore))
    decreases |script|
  {
    if |script| == 0 then Listing([], [], Unanswered)
    else
      match script[0]
      case Success(b) =>
        if b.hasMore then
          var rest := Fetch(script[1..], b.nextCursor);
          Listing([cursor] + rest.cursors, b.results + rest.pages, rest.end)
        else Listing([cursor], b.results, Complete)
      case _ => Listing([cursor], [], Failed)
  }

  /** The first `n` answers all came back and asked for more. */
  predicate MoreThrough(script: seq<Outcome<Batch>>, n: nat) {
    n <= |script| && forall k :: 0 <= k < n ==> script[k].Success? && script[k].value.hasMore
  }

  /** The batches of the first `n` answers, concatenated in order. */
  function Gathered(script: seq<Outcome<Batch>>, n: nat): seq<RemotePage>
    requires n <= |script| && forall k :: 0 <= k < n ==> script[k].Success?
    decreases n
  {
    if n == 0 then [] else script[0].value.results + Gathered(script[1..], n - 1)
  }

  /** Every query but the first sends the cursor of the answer before it,
      and every answer before the last asked for more. */
  lemma {:induction false} FetchCursors(script: seq<Outcome<Batch>>, cursor: Option<string>)
    ensures var r := Fetch(script, cursor);
      && (|r.cursors| > 0 ==> MoreThrough(script, |r.cursors| - 1))
      && (forall k :: 0 < k < |r.cursors| ==> script[k - 1].Success? && r.cursors[k] == script[k - 1].value.nextCursor)
    decreases |script|
  {
    if |script| > 0 && script[0].Success? && script[0].value.hasMore {
      var r := Fetch(script, cursor);
      var rest := Fetch(script[1..], script[0].value.nextCursor);
      FetchCursors(script[1..], script[0].value.nextCursor);
      assert r.cursors == [cursor] + rest.cursors;
      forall k | 0 < k < |r.cursors|
        ensures script[k - 1].Success? && r.cursors[k] == script[k - 1].value.nextCursor
      {
        if k > 1 {
          assert r.cursors[k] == rest.cursors[k - 1];
          assert script[1..][k - 2] == script[k - 1];
        }
      }
      forall k | 0 <= k < |r.cursors| - 1
        ensures script[k].Success? && script[k].value.hasMore
      {
        if k > 0 {
          assert script[1..][k - 1] == script[k];
        }
      }
    }
  }

  /** The listing stops at the first answer that failed or said there was
      no more; when it completed, the pages are every batch up to and
      including that last one, concatenated in order. */
  lemma {:induction false} FetchPages(script: seq<Outcome<Batch>>, cursor: Option<string>)
    ensures var r := Fetch(script, cursor);
      && (r.end == Complete ==>
            && |r.cursors| > 0
            && script[|r.cursors| - 1].Success? && !script[|r.cursors| - 1].value.hasMore
            && (forall k :: 0 <= k < |r.cursors| ==> script[k].Success?)
            && r.pages == Gathered(script, |r.cursors|))
      && (r.end == Failed ==> |r.cursors| > 0 && !script[|r.cursors| - 1].Success?)
    decreases |script|
  {
    if |script| > 0 && script[0].Success? && script[0].value.hasMore {
      var rest := Fetch(script[1..], script[0].value.nextCursor);
      FetchPages(script[1..], script[0].value.nextCursor);
      if rest.end == Complete {
        assert forall k :: 1 <= k < |rest.cursors| + 1 ==> script[1..][k - 1] == script[k];
      } else if rest.end == Failed {
        assert script[1..][|rest.cursors| - 1] == script[|rest.cursors|];
      }
    }
  }

  // ---------------------------------------------------------------------
  // Selection and the two phases (`uploadExistingFiles`)

  /** Some local base name contains the title:
      `filesInFolder.some(name => name.includes(title))`. */
  predicate Claimed(names: seq<string>, title: string) {
    exists i :: 0 <= i < |names| && Includes(names[i], title)
  }

  /** The pages to archive: those whose title no local base name
      contains, in the listing's order. */
  function ToArchive(pages: seq<RemotePage>, names: seq<string>): (r: seq<RemotePage>)
    ensures |r| <= |pages|
    ensures forall p :: p in r ==> p in pages && !Claimed(names, p.title)
    decreases |pages|
  {
    if |pages| == 0 then []
    else (if Claimed(names, pages[0].title) then [] else [pages[0]]) + ToArchive(pages[1..], names)
  }

  /** A listed page is selected exactly when no base name contains its
      title. */
  lemma {:induction false} ToArchiveExactly(pages: seq<RemotePage>, names: seq<string>, p: RemotePage)
    requires p in pages
    ensures p in ToArchive(pages, names) <==> !Claimed(names, p.title)
    decreases |pages|
  {
    if pages[0] != p {
      ToArchiveExactly(pages[1..], names, p);
    }
  }

  /** Selection keeps the listing's order: it commutes with splitting the
      listing anywhere. */
  lemma {:induction false} ToArchiveAppend(a: seq<RemotePage>, b: seq<RemotePage>, names: seq<string>)
    ensures ToArchive(a + b, names) == ToArchive(a, names) + ToArchive(b, names)
    decreases |a|
  {
    if |a| == 0 {
      assert a + b == b;
    } else {
      assert (a + b)[1..] == a[1..] + b;
      ToArchiveAppend(a[1..], b, names);
    }
  }

  /** A page titled exactly like a local base name is never archived, and
      neither is a page with an empty title while the folder holds any
      file. */
  lemma NamedPageKept(pages: seq<RemotePage>, names: seq<string>, p: RemotePage)
    requires p in pages
    requires p.title in names || (p.title == "" && |names| > 0)
    ensures p !in ToArchive(pages, names)
  {
    var i :| 0 <= i < |names| && (names[i] == p.title || p.title == "");
    IncludesSelf(names[i]);
    assert Includes(names[i], p.title);
    ToArchiveExactly(pages, names, p);
  }

  /** `fileToPageId[pageTitle] = page.id` for each selected page in order.
      Each archive task runs this write before its first `await`, so all
      of them happen before any archive request is answered. */
  function IndexPages(index: map<string, PageId>, pages: seq<RemotePage>): (r: map<string, PageId>)
    ensures forall k :: k in r <==> k in index || exists i :: 0 <= i < |pages| && pages[i].title == k
    decreases |pages|
  {
    if |pages| == 0 then index
    else IndexPages(index[pages[0].title := pages[0].id], pages[1..])
  }

  /** Each selected page's title is indexed to the page's id, unless a
      later selected page has the same title. */
  lemma {:induction false} IndexPagesLast(index: map<string, PageId>, pages: seq<RemotePage>, i: nat)
    requires i < |pages|
    requires forall j :: i < j < |pages| ==> pages[j].title != pages[i].title
    ensures IndexPages(index, pages)[pages[i].title] == pages[i].id
    decreases |pages|
  {
    if i > 0 {
      assert forall j :: i - 1 < j < |pages| - 1 ==> pages[1..][j] == pages[j + 1];
      IndexPagesLast(index[pages[0].title := pages[0].id], pages[1..], i - 1);
    } else {
      IndexPagesKeep(index[pages[0].title := pages[0].id], pages[1..], pages[0].title);
    }
  }

  lemma {:induction false} IndexPagesKeep(index: map<string, PageId>, pages: seq<RemotePage>, t: string)
    requires t in index
    requires forall j :: 0 <= j < |pages| ==> pages[j].title != t
    ensures IndexPages(index, pages)[t] == index[t]
    decreases |pages|
  {
    if |pages| > 0 {
      IndexPagesKeep(index[pages[0].title := pages[0].id], pages[1..], t);
    }
  }

  /** The archive requests, one per selected page, in order, and the index
      after their answers applied in that order. */
  function ArchiveAll(index: map<string, PageId>, pages: seq<RemotePage>, archive: PageId -> Outcome<()>): (r: map<string, PageId>)
    ensures r.Keys <= index.Keys
    ensures forall k :: k in index ==> (k in r <==> forall j :: 0 <= j < |pages| && pages[j].title == k ==> !archive(pages[j].id).Success?)
    ensures forall k :: k in r ==> r[k] == index[k]
    decreases |pages|
  {
    if |pages| == 0 then index
    else ArchiveAll(ArchivePage(index, pages[0].title, archive(pages[0].id)), pages[1..], archive)
  }

  /** The first phase: index every selected page, then archive each. */
  function ArchivePhase(index: map<string, PageId>, pages: seq<RemotePage>, archive: PageId -> Outcome<()>): (r: map<string, PageId>)
  {
    ArchiveAll(IndexPages(index, pages), pages, archive)
  }

  /** After the first phase a title is indexed exactly when it was indexed
      before or belongs to a selected page, and no selected page with that
      title was archived successfully. A title no selected page has keeps
      the id it had. */
  lemma ArchivePhaseKeys(index: map<string, PageId>, pages: seq<RemotePage>, archive: PageId -> Outcome<()>, t: string)
    ensures t in ArchivePhase(index, pages, archive) <==>
      && (t in index || exists i :: 0 <= i < |pages| && pages[i].title == t)
      && forall j :: 0 <= j < |pages| && pages[j].title == t ==> !archive(pages[j].id).Success?
    ensures t in index && (forall j :: 0 <= j < |pages| ==> pages[j].title != t)
      ==> ArchivePhase(index, pages, archive)[t] == index[t]
  {
    if t in index && forall j :: 0 <= j < |pages| ==> pages[j].title != t {
      IndexPagesKeep(index, pages, t);
    }
  }

  /** The second phase. Every call checks and marks its name before any
      of them awaits, so a name already held or seen earlier in the folder
      is turned away; the calls that pass are then run in the folder's
      order against the index left by the first phase. */
  function Calls(index: map<string, PageId>, held: set<string>, names: seq<string>, answers: string -> Answers): (v: Visit)
    ensures forall i :: 0 <= i < |v.requests| ==> Phase(v.requests[i]) == 2
    decreases |names|
  {
    if |names| == 0 then Visit([], index)
    else if Held(held, names[0]) then Calls(index, held, names[1..], answers)
    else
      var first := Attempt(ParseFields(names[0]), answers(names[0]), index);
      var rest := Calls(first.index, held + {names[0]}, names[1..], answers);
      Visit(first.requests + rest.requests, rest.index)
  }

  /** A base name that is already held, or that occurred earlier in the
      folder, is turned away wherever it occurs again: dropping that
      occurrence changes neither the requests nor the index. */
  lemma {:induction false} RepeatedNameOnce(index: map<string, PageId>, held: set<string>, before: seq<string>,
                                            name: string, after: seq<string>, answers: string -> Answers)
    requires Held(held, name) || name in before
    ensures Calls(index, held, before + [name] + after, answers) == Calls(index, held, before + after, answers)
    decreases |before|
  {
    if |before| == 0 {
      assert before + [name] + after == [name] + after;
      assert (before + [name] + after)[1..] == after == before + after;
    } else {
      var n := before[0];
      assert (before + [name] + after)[0] == n && (before + after)[0] == n;
      assert (before + [name] + after)[1..] == before[1..] + [name] + after;
      assert (before + after)[1..] == before[1..] + after;
      if Held(held, n) {
        RepeatedNameOnce(index, held, before[1..], name, after, answers);
      } else {
        var first := Attempt(ParseFields(n), answers(n), index);
        RepeatedNameOnce(first.index, held + {n}, before[1..], name, after, answers);
      }
    }
  }

  /** The other half of the guard: a name neither held nor seen earlier
      is reconciled, so its title search goes out. */
  lemma {:induction false} FreshNameSearched(index: map<string, PageId>, held: set<string>, names: seq<string>,
                                             name: string, answers: string -> Answers)
    requires name in names && !Held(held, name)
    ensures Query(ParseFields(name).title) in Calls(index, held, names, answers).requests
    decreases |names|
  {
    var n := names[0];
    if Held(held, n) {
      assert name in names[1..];
      FreshNameSearched(index, held, names[1..], name, answers);
    } else {
      var first := Attempt(ParseFields(n), answers(n), index);
      var rest := Calls(first.index, held + {n}, names[1..], answers);
      assert Calls(index, held, names, answers).requests == first.requests + rest.requests;
      if n == name {
        assert first.requests[0] == Query(ParseFields(name).title);
      } else {
        assert name in names[1..];
        FreshNameSearched(first.index, held + {n}, names[1..], name, answers);
      }
    }
  }

  /** Every title search of the second phase is for a base name in the
      folder that was not held when the phase began. */
  lemma {:induction false} SearchesFromNames(index: map<string, PageId>, held: set<string>, names: seq<string>,
                                             answers: string -> Answers, title: Option<string>)
    requires Query(title) in Calls(index, held, names, answers).requests
    ensures exists name :: name in names && !Held(held, name) && ParseFields(name).title == title
    decreases |names|
  {
    var n := names[0];
    if Held(held, n) {
      SearchesFromNames(index, held, names[1..], answers, title);
      var name :| name in names[1..] && !Held(held, name) && ParseFields(name).title == title;
      assert name in names;
    } else {
      var first := Attempt(ParseFields(n), answers(n), index);
      var rest := Calls(first.index, held + {n}, names[1..], answers);
      assert Calls(index, held, names, answers).requests == first.requests + rest.requests;
      if Query(title) in first.requests {
        AttemptCases(ParseFields(n), answers(n), index);
        assert ParseFields(n).title == title;
      } else {
        SearchesFromNames(first.index, held + {n}, names[1..], answers, title);
        var name :| name in names[1..] && !Held(held + {n}, name) && ParseFields(name).title == title;
        assert name in names;
      }
    }
  }

  /** The phase a request belongs to: listing, archiving, reconciling. */
  function Phase(r: Request): nat {
    match r
    case List(_) => 0
    case Archive(_) => 1
    case _ => 2
  }

  /** The archive requests of the first phase. */
  function Archives(pages: seq<RemotePage>): (rs: seq<Request>)
    ensures |rs| == |pages|
    ensures forall i :: 0 <= i < |pages| ==> rs[i] == Archive(pages[i].id)
  {
    seq(|pages|, i requires 0 <= i < |pages| => Archive(pages[i].id))
  }

  /** What `uploadExistingFiles` sent and the session it left. When the
      listing does not complete nothing else happens. */
  datatype Upload = Upload(requests: seq<Request>, session: Session, end: ListEnd)

  /** `uploadExistingFiles(folderPath)` on the folder's base names. */
  function UploadExistingFiles(s: Session, names: seq<string>, listing: seq<Outcome<Batch>>,
                               archive: PageId -> Outcome<()>, answers: string -> Answers): (u: Upload)
    ensures u.session.processing == s.processing
    ensures u.end != Complete ==> u.session == s && forall i :: 0 <= i < |u.requests| ==> u.requests[i].List?
  {
    var l := Fetch(listing, None);
    var lists := seq(|l.cursors|, i requires 0 <= i < |l.cursors| => List(l.cursors[i]));
    if l.end != Complete then Upload(lists, s, l.end)
    else
      var selected := ToArchive(l.pages, names);
      var archived := ArchivePhase(s.index, selected, archive);
      var calls := Calls(archived, s.processing, names, answers);
      Upload(lists + Archives(selected) + calls.requests, Session(s.processing, calls.index), Complete)
  }

  /** The phases never overlap: every listing query comes before every
      archive request, and every archive request before every request of
      the second phase. */
  lemma UploadOrder(s: Session, names: seq<string>, listing: seq<Outcome<Batch>>,
                    archive: PageId -> Outcome<()>, answers: string -> Answers)
    ensures var rs := UploadExistingFiles(s, names, listing, archive, answers).requests;
      forall i, j :: 0 <= i < j < |rs| ==> Phase(rs[i]) <= Phase(rs[j])
  {
    var rs := UploadExistingFiles(s, names, listing, archive, answers).requests;
    forall i, j | 0 <= i < j < |rs|
      ensures Phase(rs[i]) <= Phase(rs[j])
    {
      PhaseAt(s, names, listing, archive, answers, i);
      PhaseAt(s, names, listing, archive, answers, j);
    }
  }

  /** The phase of the request at position `i` is fixed by where the
      listing and the archives end. */
  lemma PhaseAt(s: Session, names: seq<string>, listing: seq<Outcome<Batch>>,
                archive: PageId -> Outcome<()>, answers: string -> Answers, i: nat)
    requires i < |UploadExistingFiles(s, names, listing, archive, answers).requests|
    ensures var l := Fetch(listing, None);
      var rs := UploadExistingFiles(s, names, listing, archive, answers).requests;
      var a := if l.end == Complete then |ToArchive(l.pages, names)| else 0;
      Phase(rs[i]) == if i < |l.cursors| then 0 else if i < |l.cursors| + a then 1 else 2
  {
  }
}
