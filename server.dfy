/**
 * The two read handlers. `repo_prs` answers `/<org>/<repo>` from the store and
 * `index` lists the store's keys. Both take one read of the store, modelled
 * here as the map value they see. Routing, content-type headers and the lock
 * itself are outside the model.
 */
module Server {
  import opened Wrappers
  import opened Snapshots

  datatype ContentType = Html | Plain

  /** A handler's answer: the content type and the body. */
  datatype Response = Response(contentType: ContentType, body: string)

  /** The store key for the path `/<org>/<repo>`. */
  function RepoKey(org: string, repo: string): string {
    org + "/" + repo
  }

  /** The stored page or error text as HTML, or the plain-text fallback for a key never written. */
  function RepoPrs(store: map<string, string>, org: string, repo: string): Response {
    match Lookup(store, RepoKey(org, repo))
    case Some(found) => Response(Html, found)
    case None => Response(Plain, "Unknown repository")
  }

  /**
   * When the org segment contains no `/`, two different `(org, repo)` paths
   * read different store entries.
   */
  lemma RepoKeyInjective(o1: string, r1: string, o2: string, r2: string)
    requires '/' !in o1 && '/' !in o2
    requires RepoKey(o1, r1) == RepoKey(o2, r2)
    ensures o1 == o2 && r1 == r2
  {
    var k := RepoKey(o1, r1);
    KeyLayout(o1, r1);
    KeyLayout(o2, r2);
    if |o1| != |o2| {
      assert false;
    }
    assert o1 == k[..|o1|] == o2;
    assert r1 == k[|o1| + 1..] == r2;
  }

  /** A key is the org, a slash, then the repository name. */
  lemma KeyLayout(org: string, repo: string)
    ensures |RepoKey(org, repo)| == |org| + 1 + |repo|
    ensures RepoKey(org, repo)[|org|] == '/'
    ensures forall i :: 0 <= i < |org| ==> RepoKey(org, repo)[i] == org[i]
  {
  }

  /** The page of a repository is served exactly when its key is in the store; otherwise the fallback. */
  lemma RepoPrsAnswers(store: map<string, string>, org: string, repo: string)
    ensures RepoKey(org, repo) in store <==> RepoPrs(store, org, repo).contentType == Html
    ensures RepoKey(org, repo) in store ==> RepoPrs(store, org, repo).body == store[org + "/" + repo]
    ensures RepoKey(org, repo) !in store ==> RepoPrs(store, org, repo) == Response(Plain, "Unknown repository")
  {
  }

  /** Before any cycle of a repository has written, its page is the plain-text fallback, not an error. */
  lemma UnknownBeforeFirstWrite(store: map<string, string>, cycles: seq<Cycle>, org: string, repo: string)
    requires RepoKey(org, repo) !in store
    requires LastWrite(cycles, RepoKey(org, repo)).None?
    ensures RepoPrs(Replay(store, cycles), org, repo) == Response(Plain, "Unknown repository")
  {
    hide Replay, LastWrite;
    ReplayEntry(store, cycles, RepoKey(org, repo));
  }

  /** After a failed fetch the repository's page shows the error text, served as HTML. */
  lemma FailureServed(store: map<string, string>, org: string, repo: string, status: string)
    ensures RepoPrs(Publish(store, RepoKey(org, repo), NonZeroExit(status)), org, repo)
         == Response(Html, "gh cli command exited with code " + status)
  {
    FailureReplaces(store, RepoKey(org, repo), status);
  }

  // ---------------------------------------------------------------------------
  // The index page

  const IndexHeader: string := "<html><body><h1>Monitored GitHub Repositories</h1><hr/><ul>\n"
  const IndexFooter: string := "</ul></body></html>"

  /** The list item linking to one repository's page. */
  function IndexLink(repo: string): string {
    "<li><a href=\"/" + repo + "\">" + repo + "</a></li>\n"
  }

  /** The links for `repos`, in that order. */
  function IndexLinks(repos: seq<string>): string {
    if repos == [] then "" else IndexLinks(repos[..|repos| - 1]) + IndexLink(repos[|repos| - 1])
  }

  /** `order` lists every element of `keys` exactly once. */
  ghost predicate Enumerates(order: seq<string>, keys: set<string>) {
    && (forall k :: k in keys <==> k in order)
    && (forall i, j :: 0 <= i < j < |order| ==> order[i] != order[j])
  }

  /**
   * The index page: one link per key of the store, in the map's iteration
   * order, which is unspecified; `order` names the order this run took.
   */
  method Index(store: map<string, string>) returns (html: string, ghost order: seq<string>)
    ensures Enumerates(order, store.Keys)
    ensures |order| == |store.Keys|
    ensures html == IndexHeader + IndexLinks(order) + IndexFooter
  {
    hide IndexLink;
    html := IndexHeader;
    order := [];
    var remaining := store.Keys;
    while remaining != {}
      invariant remaining <= store.Keys
      invariant forall k :: k in store.Keys <==> k in remaining || k in order
      invariant forall k :: k in order ==> k !in remaining
      invariant forall i, j :: 0 <= i < j < |order| ==> order[i] != order[j]
      invariant |order| + |remaining| == |store.Keys|
      invariant html == IndexHeader + IndexLinks(order)
      decreases remaining
    {
      var repo :| repo in remaining;
      assert (order + [repo])[..|order|] == order;
      html := html + IndexLink(repo);
      order := order + [repo];
      remaining := remaining - {repo};
    }
    html := html + IndexFooter;
  }

  /** The index lists a repository exactly when some cycle of it has written (or it was there before). */
  lemma IndexListsWrittenRepos(store: map<string, string>, cycles: seq<Cycle>,
                               order: seq<string>, repo: string)
    requires Enumerates(order, Replay(store, cycles).Keys)
    ensures repo in order <==> repo in store || repo in WrittenRepos(cycles)
  {
    hide Replay, WrittenRepos;
    ReplayKeys(store, cycles);
  }
}
