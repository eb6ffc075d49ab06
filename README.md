# gh-pr-tree, modelled in Dafny

gh-pr-tree watches a fixed list of GitHub repositories and serves one status
page for each. Every 60 seconds, a poller per repository runs
`gh pr list --limit 100 --json ...`. It decodes the open PRs and renders them
as a forest of nested `<ul>` lists: a PR sits under the PR whose `head` branch
it targets, and the roots are the PRs that target `main`. The poller stores
the page, or the error text, in a shared map from `"org/repo"` to HTML. Two
HTTP handlers read that map: `/` lists its keys and `/<org>/<repo>` returns
one entry.

The model has five files:

- `wrappers.dfy` (module `Wrappers`) defines `Option`.
- `records.dfy` (module `Records`) holds the PR record shapes and the `"bot"` author default. It also has the decimal printing of unsigned numbers that `format!` uses.
- `forest.dfy` (module `Forest`) holds the renderer `pr_to_html`. `Render` is its specification as a function. `PrToHtml` is the imperative version: string pushes in loops plus recursion, proved equal to `Render`.
- `snapshots.dfy` (module `Snapshots`) holds the publication rule of one poller cycle (`Publish`). It also has the store as a class whose `PollCycle` and `Run` update the map in place, and lemmas about any interleaving of cycles (`Replay`).
- `server.dfy` (module `Server`) holds the read handlers `repo_prs` (`RepoPrs`) and `index` (`Index`).

The source recursion in `pr_to_html` has no bound. `Render` therefore takes
`fuel`, the number of nested `<ul>` levels it may open. `Some(html)` is the
source's result. `None` means the rendering was not complete when the fuel ran
out. Four lemmas say when each case happens:

- `RankedRenders`: when the branch links can be ranked (they are acyclic), `rank(parent) + 1` levels always suffice.
- `RenderFuelMonotone`: once a rendering completes, more fuel does not change it.
- `ClosedDiverges`: a cycle reachable from the parent branch makes every fuel run out. Examples are a PR whose head is its own base, or two PRs that target each other's head.
- `CompletesWithin`: a rendering that completes with any fuel completes, with the same result, within `|prs| + 1` levels. A longer walk would use some PR twice, and that closes a cycle.

A poller cycle therefore renders with `|prs| + 1` levels. It writes nothing
exactly when its forest never completes (`DecodedWritesUnlessEndless`).

In the source, such a branch cycle does not loop for ever, because the recursive call
is not a tail call. In a debug build, `depth + 1` overflows the `u8` and panics,
which ends that repository's poller task. In a release build, the recursion
overflows the stack and aborts the whole process. The model does not follow
either: a poller cycle whose forest never completes writes nothing, and the
later cycles continue.

Three things the code does that a reader might not expect:

- The store holds plain strings, with no mark of success or failure. An error text is served with an HTML content type, just like a page.
- Not every PR appears exactly once in the forest. A PR whose base branch cannot be reached from `main` never appears (`UnreachableOmitted`). A PR that targets a head branch shared by two PRs appears under both (`SharedHeadDuplicates`).
- The page text is modelled as the code writes it, including `</hr>` after the title and the closing `<html>`.

## Model

| member | source | states |
|---|---|---|
| Records.DecodeAuthor | src/main.rs:14-22 | a present author name is kept; an absent one becomes `"bot"` |
| Records.Decimal | src/main.rs:153 | a printed number is non-empty, all digits, and has no leading zero |
| Records.DecimalRoundTrip | src/main.rs:153 | reading the printed digits back gives the number |
| Records.DecimalInjective | src/main.rs:153 | two different PR numbers never print the same |
| Forest.ChildrenMembers | src/main.rs:150 | a level selects exactly the PRs whose `base` equals the parent branch |
| Forest.ChildrenAppend | src/main.rs:150 | the selection is a stable filter: the selection from `a + b` is the one from `a` followed by the one from `b`, so input order is kept |
| Forest.AppendLabels | src/main.rs:155-157 | the label loop appends one span per label, in label-list order, to the line |
| Forest.LabelSpansAppend | src/main.rs:155-157 | the spans of two label lists joined are the first list's spans followed by the second's |
| Forest.EmitItem | src/main.rs:152-160 | one item is the `<li>PR #…` head line, the label spans, a newline, the nested list for the PR's `head` branch and `</li>\n`; it is incomplete when the nested list is |
| Forest.PrToHtml | src/main.rs:139-164 | the imperative renderer returns exactly `Render(prs, parent, depth, fuel)` for every input |
| Forest.RenderIsList | src/main.rs:140-163 | every completed rendering starts with `<ul>\n` and ends with `</ul>\n` |
| Forest.LeafIffNoChildren | src/main.rs:140-163 | a level renders as exactly `<ul>\n</ul>\n` if and only if no PR targets its parent branch |
| Forest.RenderDepthIrrelevant | src/main.rs:139-164 | the `depth` argument never changes the output |
| Forest.RenderAllDepthIrrelevant | src/main.rs:142-161 | the same for the items of one level |
| Forest.RenderFuelMonotone | src/main.rs:139-164 | a completed rendering stays the same with any additional fuel |
| Forest.RenderAllFuelMonotone | src/main.rs:142-161 | the same for the items of one level |
| Forest.RankedRenders | src/main.rs:139-164 | on acyclic branch links (a rank that drops along every PR), `rank(parent) + 1` levels suffice |
| Forest.RankedRenderAll | src/main.rs:142-161 | the same for the items of one level |
| Forest.ClosedDiverges | src/main.rs:159 | if a set of branches contains the parent and each of them has a PR leading back into the set, no fuel ever suffices |
| Forest.RenderAllNoneIfMember | src/main.rs:159 | one selected PR whose nested list cannot be completed leaves its level incomplete |
| Forest.SelfLoopDiverges | src/main.rs:159 | a PR whose head equals its base makes rendering from its base branch never complete |
| Forest.MutualPairDiverges | src/main.rs:159 | two PRs that target each other's head branch make rendering from the first one's base never complete; from `main` this holds when the pair is reachable (`ClosedDiverges`) |
| Forest.UnreachableOmitted | src/main.rs:150-159 | two chained PRs whose chain starts at `orphan`, not `main`, do not appear: the page's forest is the empty list |
| Forest.SharedHeadDuplicates | src/main.rs:150-160 | when two PRs into `main` share the head branch `shared`, the PR targeting `shared` appears once under each of them |
| Forest.CompletesWithin | src/main.rs:139-164 | a rendering that completes with any fuel completes, with the same result, within one more level than there are PRs |
| Forest.NeverCompletes | src/main.rs:139-164 | with one more level than there are PRs the rendering is incomplete exactly when no number of levels suffices |
| Forest.StackedPairExample | src/main.rs:150-160 | for #1 (`main` ← `feat-a`) and #2 (`feat-a` ← `feat-b`), #1 is the only top item, #2 is the only item nested in it, and #2's list is empty; three levels are needed |
| Snapshots.Publish | src/main.rs:109-122 | a cycle changes no key except its own repository; that key then holds what the cycle wrote, or its old value if nothing was written |
| Snapshots.FailureReplaces | src/main.rs:109-113 | an unsuccessful exit stores `gh cli command exited with code {status}`, replacing any earlier page |
| Snapshots.SkipKeepsStore | src/main.rs:95-122 | a run or join failure, or a decode failure, leaves the whole store unchanged |
| Snapshots.DecodedPublishesForest | src/main.rs:116-121 | a decoded list whose forest completes with some fuel stores a page that contains that forest, `pr_to_html(prs, "main", 0)`, right after the title |
| Snapshots.DecodedWritesUnlessEndless | src/main.rs:116-121 | a decoded list writes nothing exactly when its forest never completes with any number of levels |
| Snapshots.Store.constructor | src/main.rs:77 | the store starts empty |
| Snapshots.Store.PollCycle | src/main.rs:93-123 | one cycle updates the map in place exactly as `Publish` says |
| Snapshots.Store.Run | src/main.rs:87-129 | any order of cycles taken under the write lock leaves the map as `Replay` says |
| Snapshots.ReplayEntry | src/main.rs:92-127 | after any sequence of cycles, a repository holds what its last writing cycle wrote, or its old value if none wrote |
| Snapshots.LastWriteOwn | src/main.rs:87-129 | a repository's last write depends only on its own cycles |
| Snapshots.Isolation | src/main.rs:87-129 | other repositories' cycles never change what a repository's entry holds |
| Snapshots.ReplayKeys | src/main.rs:110-121 | the keys after any sequence of cycles are the old keys plus every repository that had a writing cycle; nothing is removed |
| Snapshots.RecoversAfterFailure | src/main.rs:109-121 | a failed fetch followed by a successful one leaves the new page, not the error |
| Snapshots.StaleAfterDecodeFailure | src/main.rs:116-121 | a decode failure after a published page leaves that page in place |
| Server.RepoKeyInjective | src/main.rs:62-68 | when the org segment contains no `/`, different `(org, repo)` paths read different keys |
| Server.RepoPrsAnswers | src/main.rs:68-72 | the stored text is served as HTML exactly when `org/repo` is a key; otherwise the plain text `Unknown repository` is served |
| Server.UnknownBeforeFirstWrite | src/main.rs:68-72 | before any cycle of a repository has written, its path gets the `Unknown repository` fallback |
| Server.FailureServed | src/main.rs:62-72 | after a failed fetch, the repository's path serves the error text as HTML |
| Server.Index | src/main.rs:50-60 | the index is the header, then one link per store key with every key exactly once, then the footer |
| Server.IndexListsWrittenRepos | src/main.rs:55-57 | the index lists a repository exactly when it was already a key or some cycle of it has written; from the empty start store, exactly when some cycle of it has written |

## Left out

- Running `gh` through `Command` and `spawn_blocking`, and copying its stderr, is left out because it is process I/O. A cycle receives the fetch result as an `Outcome`. If writing the stderr copy fails, the `unwrap` panics after the error text is stored, which ends that repository's poller task; the model lets later cycles continue.
- The `--limit 100` and `--json` field arguments are left out because they matter only to the external command.
- JSON decoding with `serde_json` is left out because it is a foreign library. A decoded list arrives as `seq<Pr>`. Only the `"bot"` default for a missing author name is modelled. A record missing any other field, or the whole author object, makes the whole list fail to decode (`DecodeFailed`).
- Exit-status text is an opaque string. The Display text of `ExitStatus` depends on the platform.
- The timestamp and the elapsed milliseconds are inputs of `Decoded`, because wall-clock time is not deterministic.
- The tokio tasks, the 60-second interval timer and the `RwLock` are left out because they are concurrency and timing. Each write is atomic under the lock, so pollers are modelled as one sequence of cycles in lock order (`Store.Run`, `Replay`).
- Rocket routing, content-type headers and server launch are left out. The handlers are functions of the map value they read.
- The command-line argument loop and its `args.len() < 1` check are left out. The program name is always present, so that check never fires.
- The order of `HashMap` keys is left out because it is unspecified. `Index` takes keys in an arbitrary order and names the order it took.
- HTML escaping is left out because the code performs none.
- Forest.NextDepth: `depth + 1` wraps at 256, as in a release build. In a debug build, `depth` overflows at 255 and that panics. A forest that completes needs at most `|prs| + 1` levels (`CompletesWithin`), so with at most 100 PRs it never gets that deep.
- Forest.Render: running out of fuel means "not complete". The panic (debug build) or stack overflow (release build) that the unbounded recursion causes in the source is not modelled.
- Snapshots.Written / Snapshots.Replay: a cycle whose forest never completes is modelled as "write nothing and continue". The source instead ends that repository's poller (debug build) or the whole process with every poller and the HTTP server (release build). Later cycles of that repository, and `Isolation` after such a cycle, therefore describe states the source never reaches.
