/**
 * The snapshot store and the per-cycle publication rule of the poller.
 *
 * The store is the shared `HashMap<String, String>` from `"org/repo"` to the
 * last published page or error text. Every poller cycle ends with one of four
 * fetch outcomes, and only two of them write, and then only under their own
 * repository's key. The `gh` process, the JSON decoder, the clock and the
 * timer are outside the model: a cycle receives their result as an `Outcome`.
 */
module Snapshots {
  import opened Wrappers
  import opened Records
  import opened Forest

  /** The branch every forest is rooted at. */
  const Trunk: string := "main"

  /** What the fetch of one cycle produced. */
  datatype Outcome =
    | ExecError                       // the process could not be run or its task not joined
    | NonZeroExit(status: string)     // the process exited unsuccessfully; `status` is its exit status as displayed
    | DecodeFailed                    // the process succeeded but its output did not decode as a PR list
    | Decoded(prs: seq<Pr>, generatedAt: string, durationMs: nat)
                                      // the PR list, with the timestamp and elapsed milliseconds taken after decoding

  /** One poller cycle for one repository. */
  datatype Cycle = Cycle(repo: string, outcome: Outcome)

  /** The text stored when the fetch process exits unsuccessfully. */
  function ExitMessage(status: string): string {
    "gh cli command exited with code " + status
  }

  /** The page prefix that comes before the forest. */
  function PageHead(repo: string): string {
    "<html><body><h1>" + repo + "</h1></hr>"
  }

  /**
   * The page stored after a successful cycle: title, forest, timestamp, and the
   * milliseconds taken to fetch and decode the list (measured before rendering).
   */
  function Page(repo: string, tree: string, generatedAt: string, durationMs: nat): string {
    PageHead(repo) + tree + "<hr/>Last updated: " + generatedAt + "<br/>Generated in "
      + Decimal(durationMs) + "ms</body><html>"
  }

  /**
   * What a cycle writes under its repository's key, if anything. Rendering gets
   * `|prs| + 1` nested levels, which every forest that completes at all fits in
   * (`DecodedWritesUnlessEndless`). Only a forest with a cycle reachable from
   * `main` writes nothing here, whereas in the source such a cycle ends its
   * poller task (debug build) or the whole process (release build).
   */
  function Written(repo: string, outcome: Outcome): Option<string> {
    match outcome
    case ExecError => None
    case NonZeroExit(status) => Some(ExitMessage(status))
    case DecodeFailed => None
    case Decoded(prs, generatedAt, durationMs) =>
      match Render(prs, Trunk, 0, |prs| + 1)
      case None => None
      case Some(tree) => Some(Page(repo, tree, generatedAt, durationMs))
  }

  /** The value under `key`, if any. */
  function Lookup(store: map<string, string>, key: string): Option<string> {
    if key in store then Some(store[key]) else None
  }

  /** The store after one cycle of `repo`'s poller: only `repo`'s entry may change. */
  function Publish(store: map<string, string>, repo: string, outcome: Outcome): (r: map<string, string>)
    ensures forall k :: k != repo ==> Lookup(r, k) == Lookup(store, k)
    ensures Lookup(r, repo) == if Written(repo, outcome).Some? then Written(repo, outcome)
                               else Lookup(store, repo)
  {
    match Written(repo, outcome)
    case None => store
    case Some(text) => store[repo := text]
  }

  /** The store after a sequence of cycles, of any pollers, applied in order. */
  function Replay(store: map<string, string>, cycles: seq<Cycle>): map<string, string> {
    if cycles == [] then store
    else
      var c := cycles[|cycles| - 1];
      Publish(Replay(store, cycles[..|cycles| - 1]), c.repo, c.outcome)
  }

  // ---------------------------------------------------------------------------
  // The store as the object the pollers update in place

  class Store {
    var pages: map<string, string>

    /** An empty store, as at start-up. */
    constructor ()
      ensures pages == map[]
    {
      pages := map[];
    }

    /** One cycle of `repo`'s poller: insert the error text or the new page, or skip. */
    method PollCycle(repo: string, outcome: Outcome)
      modifies this
      ensures pages == Publish(old(pages), repo, outcome)
    {
      match outcome {
        case ExecError =>
        case NonZeroExit(status) =>
          pages := pages[repo := ExitMessage(status)];
        case DecodeFailed =>
        case Decoded(prs, generatedAt, durationMs) =>
          var tree := PrToHtml(prs, Trunk, 0, |prs| + 1);
          if tree.Some? {
            pages := pages[repo := Page(repo, tree.value, generatedAt, durationMs)];
          }
      }
    }

    /** The pollers' cycles, interleaved in the order they took the write lock. */
    method Run(cycles: seq<Cycle>)
      modifies this
      ensures pages == Replay(old(pages), cycles)
    {
      var i := 0;
      while i < |cycles|
        invariant 0 <= i <= |cycles|
        invariant pages == Replay(old(pages), cycles[..i])
      {
        assert cycles[..i + 1][..i] == cycles[..i];
        PollCycle(cycles[i].repo, cycles[i].outcome);
        i := i + 1;
      }
      assert cycles[..i] == cycles;
    }
  }

  // ---------------------------------------------------------------------------
  // What publication promises

  /** An unsuccessful exit replaces whatever `repo` held, a page included, with the error text. */
  lemma FailureReplaces(store: map<string, string>, repo: string, status: string)
    ensures Lookup(Publish(store, repo, NonZeroExit(status)), repo)
         == Some("gh cli command exited with code " + status)
  {
  }

  /** A run or join failure, or a decode failure, leaves the whole store as it was. */
  lemma SkipKeepsStore(store: map<string, string>, repo: string, outcome: Outcome)
    requires outcome.ExecError? || outcome.DecodeFailed?
    ensures Publish(store, repo, outcome) == store
  {
  }

  /** A decoded PR list replaces `repo`'s entry with a page built around the forest rooted at `main`. */
  lemma DecodedPublishesForest(store: map<string, string>, repo: string, prs: seq<Pr>,
                               generatedAt: string, durationMs: nat, fuel: nat)
    requires Render(prs, Trunk, 0, fuel).Some?
    ensures var page := Lookup(Publish(store, repo, Decoded(prs, generatedAt, durationMs)), repo);
            var tree := Render(prs, Trunk, 0, fuel).value;
            && page == Some(Page(repo, tree, generatedAt, durationMs))
            && page.value[|PageHead(repo)|..|PageHead(repo)| + |tree|] == tree
  {
    hide Render, Decimal, PageHead, Page;
    CompletesWithin(prs, Trunk, 0, fuel);
    var tree := Render(prs, Trunk, 0, fuel).value;
    assert Written(repo, Decoded(prs, generatedAt, durationMs)) == Some(Page(repo, tree, generatedAt, durationMs));
    TreeAfterHead(repo, tree, generatedAt, durationMs);
  }

  /** The forest sits right after the title in a page. */
  lemma TreeAfterHead(repo: string, tree: string, generatedAt: string, durationMs: nat)
    ensures Page(repo, tree, generatedAt, durationMs)[|PageHead(repo)|..|PageHead(repo)| + |tree|] == tree
  {
    hide Decimal, PageHead;
    var rest := "<hr/>Last updated: " + generatedAt + "<br/>Generated in " + Decimal(durationMs) + "ms</body><html>";
    assert Page(repo, tree, generatedAt, durationMs) == PageHead(repo) + tree + rest;
  }

  /**
   * A decoded PR list writes nothing exactly when its forest never completes
   * with any number of levels, that is, when the source's rendering never returns.
   */
  lemma DecodedWritesUnlessEndless(repo: string, prs: seq<Pr>, generatedAt: string, durationMs: nat)
    ensures Written(repo, Decoded(prs, generatedAt, durationMs)).None?
        <==> forall fuel :: Render(prs, Trunk, 0, fuel).None?
  {
    NeverCompletes(prs, Trunk, 0);
  }

  /** The last cycle of `repo` that wrote something, if any. */
  function LastWrite(cycles: seq<Cycle>, repo: string): Option<string> {
    if cycles == [] then None
    else
      var c := cycles[|cycles| - 1];
      if c.repo == repo && Written(repo, c.outcome).Some? then Written(repo, c.outcome)
      else LastWrite(cycles[..|cycles| - 1], repo)
  }

  /**
   * After any sequence of cycles, `repo` holds what its last writing cycle wrote,
   * and what it held before when none of its cycles wrote: a failure does not
   * poison later successes, and a skipped cycle keeps the stale entry.
   */
  lemma {:induction false} ReplayEntry(store: map<string, string>, cycles: seq<Cycle>, repo: string)
    ensures Lookup(Replay(store, cycles), repo)
         == if LastWrite(cycles, repo).Some? then LastWrite(cycles, repo) else Lookup(store, repo)
    decreases |cycles|
  {
    hide Written;
    if cycles != [] {
      ReplayEntry(store, cycles[..|cycles| - 1], repo);
    }
  }

  /** The cycles of one repository's poller, in order. */
  function CyclesOf(cycles: seq<Cycle>, repo: string): (own: seq<Cycle>)
    ensures forall c :: c in own ==> c.repo == repo
  {
    if cycles == [] then []
    else
      CyclesOf(cycles[..|cycles| - 1], repo)
        + (if cycles[|cycles| - 1].repo == repo then [cycles[|cycles| - 1]] else [])
  }

  /** Pollers are isolated: the other repositories' cycles never change what `repo` holds. */
  lemma Isolation(store: map<string, string>, cycles: seq<Cycle>, repo: string)
    ensures Lookup(Replay(store, cycles), repo)
         == Lookup(Replay(store, CyclesOf(cycles, repo)), repo)
  {
    ReplayEntry(store, cycles, repo);
    ReplayEntry(store, CyclesOf(cycles, repo), repo);
    LastWriteOwn(cycles, repo);
  }

  lemma {:induction false} LastWriteOwn(cycles: seq<Cycle>, repo: string)
    ensures LastWrite(CyclesOf(cycles, repo), repo) == LastWrite(cycles, repo)
    decreases |cycles|
  {
    hide Written;
    if cycles != [] {
      var init, c := cycles[..|cycles| - 1], cycles[|cycles| - 1];
      LastWriteOwn(init, repo);
      if c.repo == repo {
        assert CyclesOf(cycles, repo) == CyclesOf(init, repo) + [c];
        assert (CyclesOf(init, repo) + [c])[..|CyclesOf(init, repo)|] == CyclesOf(init, repo);
      } else {
        assert CyclesOf(cycles, repo) == CyclesOf(init, repo) + [];
        assert CyclesOf(init, repo) + [] == CyclesOf(init, repo);
      }
    }
  }

  /** The repositories that at least one cycle wrote for. */
  function WrittenRepos(cycles: seq<Cycle>): set<string> {
    if cycles == [] then {}
    else
      var c := cycles[|cycles| - 1];
      WrittenRepos(cycles[..|cycles| - 1])
        + (if Written(c.repo, c.outcome).Some? then {c.repo} else {})
  }

  /** The store's keys are the repositories that ever had a cycle write: entries are never removed. */
  lemma {:induction false} ReplayKeys(store: map<string, string>, cycles: seq<Cycle>)
    ensures Replay(store, cycles).Keys == store.Keys + WrittenRepos(cycles)
    decreases |cycles|
  {
    hide Written;
    if cycles != [] {
      var init, c := cycles[..|cycles| - 1], cycles[|cycles| - 1];
      ReplayKeys(store, init);
      var before := Replay(store, init);
      assert Lookup(Publish(before, c.repo, c.outcome), c.repo).Some?
         <==> (c.repo in before || Written(c.repo, c.outcome).Some?);
      forall k | k != c.repo
        ensures k in Publish(before, c.repo, c.outcome) <==> k in before
      {
        assert Lookup(Publish(before, c.repo, c.outcome), k) == Lookup(before, k);
      }
    }
  }

  /** A failed fetch followed by a successful one leaves the new page, not the error. */
  lemma RecoversAfterFailure(store: map<string, string>, repo: string, status: string, prs: seq<Pr>,
                             generatedAt: string, durationMs: nat, fuel: nat)
    requires Render(prs, Trunk, 0, fuel).Some?
    ensures Lookup(Replay(store, [Cycle(repo, NonZeroExit(status)), Cycle(repo, Decoded(prs, generatedAt, durationMs))]), repo)
         == Some(Page(repo, Render(prs, Trunk, 0, fuel).value, generatedAt, durationMs))
  {
    CompletesWithin(prs, Trunk, 0, fuel);
    hide Render, Page, ExitMessage;
    var cycles := [Cycle(repo, NonZeroExit(status)), Cycle(repo, Decoded(prs, generatedAt, durationMs))];
    ReplayEntry(store, cycles, repo);
  }

  /** A decode failure after a published page leaves that page visible. */
  lemma StaleAfterDecodeFailure(store: map<string, string>, repo: string, prs: seq<Pr>,
                                generatedAt: string, durationMs: nat, fuel: nat)
    requires Render(prs, Trunk, 0, fuel).Some?
    ensures Lookup(Replay(store, [Cycle(repo, Decoded(prs, generatedAt, durationMs)), Cycle(repo, DecodeFailed)]), repo)
         == Some(Page(repo, Render(prs, Trunk, 0, fuel).value, generatedAt, durationMs))
  {
    CompletesWithin(prs, Trunk, 0, fuel);
    hide Render, Page, ExitMessage;
    var cycles := [Cycle(repo, Decoded(prs, generatedAt, durationMs)), Cycle(repo, DecodeFailed)];
    assert cycles[..1] == [Cycle(repo, Decoded(prs, generatedAt, durationMs))];
    ReplayEntry(store, cycles, repo);
  }
}
