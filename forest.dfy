/**
 * The forest renderer `pr_to_html`: from a flat list of PRs it emits, as nested
 * `<ul>` lists, every PR whose `base` is the current parent branch, each followed
 * by the rendering of the PRs that target that PR's `head` branch.
 *
 * The source recursion has no bound: a PR whose `head` leads back to a branch
 * already on the path makes it recurse until it fails (the `u8` depth overflows
 * and panics in a debug build, the stack overflows in a release build). The
 * model therefore carries `fuel`, the number of nested levels it may still
 * open; `None` means that the fuel ran out before the rendering was complete.
 */
module Forest {
  import opened Wrappers
  import opened Records

  /** The source's `depth: u8`. */
  type U8 = d: nat | d < 256

  /** `depth + 1` on a `u8`, wrapping at 256 as a release build does. */
  function NextDepth(d: U8): U8 {
    (d + 1) % 256
  }

  // ---------------------------------------------------------------------------
  // Layout of one item

  /** `<li>PR #<a href="{url}">{number}</a> by {name}: {title}` */
  function ItemHead(pr: Pr): string {
    "<li>PR #<a href=\"" + pr.url + "\">" + Decimal(pr.number) + "</a> by "
      + pr.author.name + ": " + pr.title
  }

  /** The span emitted for one label. */
  function LabelSpan(l: Label): string {
    "&nbsp;<span style=\"font-family: arial; font-weight: bold; color: " + l.color + "\">"
      + l.name + "</span>"
  }

  /** The spans of a list of labels, in list order. */
  function LabelSpans(ls: seq<Label>): string {
    if ls == [] then "" else LabelSpans(ls[..|ls| - 1]) + LabelSpan(ls[|ls| - 1])
  }

  /** One complete item: head line, label spans, newline, nested list `sub`, closing tag. */
  function Item(pr: Pr, sub: string): string {
    ItemHead(pr) + LabelSpans(pr.labels) + "\n" + sub + "</li>\n"
  }

  // ---------------------------------------------------------------------------
  // Selection of one level

  /** The PRs that target `parent`, kept in input order (the `filter` of the source). */
  function Children(prs: seq<Pr>, parent: string): (kids: seq<Pr>)
  {
    if prs == [] then []
    else
      Children(prs[..|prs| - 1], parent)
        + (if prs[|prs| - 1].base == parent then [prs[|prs| - 1]] else [])
  }

  /** The filter is stable: selecting from two parts keeps the parts' order. */
  lemma {:induction false} ChildrenAppend(a: seq<Pr>, b: seq<Pr>, parent: string)
    ensures Children(a + b, parent) == Children(a, parent) + Children(b, parent)
    decreases |b|
  {
    if b == [] {
      assert a + b == a;
    } else {
      var b' := b[..|b| - 1];
      assert (a + b)[..|a + b| - 1] == a + b';
      assert (a + b)[|a + b| - 1] == b[|b| - 1];
      ChildrenAppend(a, b', parent);
    }
  }

  // ---------------------------------------------------------------------------
  // The renderer

  /**
   * `pr_to_html(prs, parent, depth)` with at most `fuel` nested levels:
   * `Some(html)` is the string the source returns, `None` means more levels were needed.
   */
  function Render(prs: seq<Pr>, parent: string, depth: U8, fuel: nat): Option<string>
    decreases fuel, 0
  {
    if fuel == 0 then None
    else
      match RenderAll(prs, Children(prs, parent), depth, fuel - 1)
      case None => None
      case Some(body) => Some("<ul>\n" + body + "</ul>\n")
  }

  /** The items for `kids`, in order, each with the nested list of its `head` branch. */
  function RenderAll(prs: seq<Pr>, kids: seq<Pr>, depth: U8, fuel: nat): Option<string>
    decreases fuel, |kids| + 1
  {
    if kids == [] then Some("")
    else
      match RenderAll(prs, kids[..|kids| - 1], depth, fuel)
      case None => None
      case Some(before) =>
        var k := kids[|kids| - 1];
        match Render(prs, k.head, NextDepth(depth), fuel)
        case None => None
        case Some(sub) => Some(before + Item(k, sub))
  }

  /**
   * The imperative renderer: one pass over `prs` keeping those whose `base` is
   * `parent`, an inner pass over each one's labels, and a recursive call for its
   * `head` branch, appending everything to one growing string.
   */
  method PrToHtml(prs: seq<Pr>, parent: string, depth: U8, fuel: nat) returns (out: Option<string>)
    ensures out == Render(prs, parent, depth, fuel)
    decreases fuel, 1
  {
    hide *;
    LevelStart(prs, parent, depth, fuel);
    if fuel == 0 {
      return None;
    }
    var body := "";
    var i := 0;
    while i < |prs|
      invariant 0 <= i <= |prs|
      invariant RenderAll(prs, Children(prs[..i], parent), depth, fuel - 1) == Some(body)
    {
      var pr := prs[i];
      ChildrenStep(prs, i, parent);
      if pr.base == parent {
        var item := EmitItem(prs, pr, depth, fuel - 1);
        if item.None? {
          StuckItem(prs, i, parent, depth, fuel);
          return None;
        }
        RenderAllSnoc(prs, Children(prs[..i], parent), pr, depth, fuel - 1);
        body := body + item.value;
      }
      i := i + 1;
    }
    assert prs[..i] == prs;
    LevelShape(prs, parent, depth, fuel);
    out := Some("<ul>\n" + body + "</ul>\n");
  }

  /** Before any PR is scanned nothing is selected; without fuel nothing is rendered. */
  lemma LevelStart(prs: seq<Pr>, parent: string, depth: U8, fuel: nat)
    ensures fuel == 0 ==> Render(prs, parent, depth, fuel) == None
    ensures fuel > 0 ==> RenderAll(prs, Children(prs[..0], parent), depth, fuel - 1) == Some("")
  {
    assert prs[..0] == [];
  }

  /** A selected PR whose nested list cannot be completed leaves its whole level incomplete. */
  lemma StuckItem(prs: seq<Pr>, i: nat, parent: string, depth: U8, fuel: nat)
    requires fuel > 0 && i < |prs| && prs[i].base == parent
    requires Render(prs, prs[i].head, NextDepth(depth), fuel - 1).None?
    ensures Render(prs, parent, depth, fuel) == None
  {
    hide Item, ItemHead, LabelSpans, LabelSpan;
    ChildrenStep(prs, i, parent);
    RenderAllSnocNone(prs, Children(prs[..i], parent), prs[i], depth, fuel - 1);
    PrefixNone(prs, i + 1, parent, depth, fuel - 1);
  }

  /** A level is its list of items wrapped in one `<ul>` list, or incomplete with them. */
  lemma LevelShape(prs: seq<Pr>, parent: string, depth: U8, fuel: nat)
    requires fuel > 0
    ensures RenderAll(prs, Children(prs, parent), depth, fuel - 1).None? ==>
              Render(prs, parent, depth, fuel) == None
    ensures RenderAll(prs, Children(prs, parent), depth, fuel - 1).Some? ==>
              Render(prs, parent, depth, fuel)
                == Some("<ul>\n" + RenderAll(prs, Children(prs, parent), depth, fuel - 1).value + "</ul>\n")
  {
  }

  /** Appending one item to a completed list of items. */
  lemma RenderAllSnoc(prs: seq<Pr>, kids: seq<Pr>, k: Pr, depth: U8, fuel: nat)
    requires RenderAll(prs, kids, depth, fuel).Some?
    requires Render(prs, k.head, NextDepth(depth), fuel).Some?
    ensures RenderAll(prs, kids + [k], depth, fuel)
         == Some(RenderAll(prs, kids, depth, fuel).value
                 + Item(k, Render(prs, k.head, NextDepth(depth), fuel).value))
  {
    assert (kids + [k])[..|kids|] == kids;
  }

  /** An item whose nested list cannot be completed makes the list of items incomplete. */
  lemma RenderAllSnocNone(prs: seq<Pr>, kids: seq<Pr>, k: Pr, depth: U8, fuel: nat)
    requires Render(prs, k.head, NextDepth(depth), fuel).None?
    ensures RenderAll(prs, kids + [k], depth, fuel).None?
  {
    assert (kids + [k])[..|kids|] == kids;
  }

  /** Scanning one more PR adds it to the selection exactly when it targets `parent`. */
  lemma ChildrenStep(prs: seq<Pr>, i: nat, parent: string)
    requires i < |prs|
    ensures prs[i].base == parent ==> Children(prs[..i + 1], parent) == Children(prs[..i], parent) + [prs[i]]
    ensures prs[i].base != parent ==> Children(prs[..i + 1], parent) == Children(prs[..i], parent)
  {
    assert prs[..i + 1][..i] == prs[..i];
    assert Children(prs[..i], parent) + [] == Children(prs[..i], parent);
  }

  /** The item for `pr` on a list at level `depth`, with its nested list one level deeper. */
  method EmitItem(prs: seq<Pr>, pr: Pr, depth: U8, fuel: nat) returns (item: Option<string>)
    ensures Render(prs, pr.head, NextDepth(depth), fuel).None? ==> item.None?
    ensures Render(prs, pr.head, NextDepth(depth), fuel).Some? ==>
              item == Some(Item(pr, Render(prs, pr.head, NextDepth(depth), fuel).value))
    decreases fuel, 2
  {
    var line := AppendLabels(ItemHead(pr), pr.labels);
    line := line + "\n";
    var sub := PrToHtml(prs, pr.head, NextDepth(depth), fuel);
    if sub.None? {
      return None;
    }
    item := Some(line + sub.value + "</li>\n");
  }

  /** `line` followed by the spans of `labels`, appended one label at a time. */
  method AppendLabels(line: string, labels: seq<Label>) returns (r: string)
    ensures r == line + LabelSpans(labels)
  {
    hide LabelSpan;
    r := line;
    var j := 0;
    while j < |labels|
      invariant 0 <= j <= |labels|
      invariant r == line + LabelSpans(labels[..j])
    {
      assert labels[..j + 1][..j] == labels[..j];
      r := r + LabelSpan(labels[j]);
      j := j + 1;
    }
    assert labels[..j] == labels;
  }

  /** If the items selected from the first `n` PRs cannot be completed, the whole level cannot. */
  lemma PrefixNone(prs: seq<Pr>, n: nat, parent: string, depth: U8, fuel: nat)
    requires n <= |prs|
    requires RenderAll(prs, Children(prs[..n], parent), depth, fuel) == None
    ensures RenderAll(prs, Children(prs, parent), depth, fuel) == None
  {
    ChildrenAppend(prs[..n], prs[n..], parent);
    assert prs[..n] + prs[n..] == prs;
    RenderAllNoneExtends(prs, Children(prs[..n], parent), Children(prs[n..], parent), depth, fuel);
  }

  /** Once the items of a prefix cannot be completed, neither can the items of any extension. */
  lemma {:induction false} RenderAllNoneExtends(prs: seq<Pr>, kids: seq<Pr>, more: seq<Pr>, depth: U8, fuel: nat)
    requires RenderAll(prs, kids, depth, fuel) == None
    ensures RenderAll(prs, kids + more, depth, fuel) == None
    decreases |more|
  {
    if more == [] {
      assert kids + more == kids;
    } else {
      var more' := more[..|more| - 1];
      assert (kids + more)[..|kids + more| - 1] == kids + more';
      RenderAllNoneExtends(prs, kids, more', depth, fuel);
    }
  }

  // ---------------------------------------------------------------------------
  // What the renderer promises

  /** The selection at one level is exactly the PRs that target `parent`. */
  lemma {:induction false} ChildrenMembers(prs: seq<Pr>, parent: string)
    ensures forall p :: p in Children(prs, parent) <==> p in prs && p.base == parent
    decreases |prs|
  {
    if prs != [] {
      var init := prs[..|prs| - 1];
      ChildrenMembers(init, parent);
      assert prs == init + [prs[|prs| - 1]];
    }
  }

  lemma ChildIsSelected(prs: seq<Pr>, parent: string, p: Pr)
    requires p in prs && p.base == parent
    ensures p in Children(prs, parent)
  {
    ChildrenMembers(prs, parent);
  }

  lemma SelectedTargets(prs: seq<Pr>, parent: string, i: nat)
    requires i < |Children(prs, parent)|
    ensures Children(prs, parent)[i] in prs && Children(prs, parent)[i].base == parent
  {
    ChildrenMembers(prs, parent);
    assert Children(prs, parent)[i] in Children(prs, parent);
  }

  /** The spans of two label lists are the spans of the first followed by those of the second. */
  lemma {:induction false} LabelSpansAppend(a: seq<Label>, b: seq<Label>)
    ensures LabelSpans(a + b) == LabelSpans(a) + LabelSpans(b)
    decreases |b|
  {
    hide LabelSpan;
    if b == [] {
      assert a + b == a;
    } else {
      var b' := b[..|b| - 1];
      assert (a + b)[..|a + b| - 1] == a + b';
      assert (a + b)[|a + b| - 1] == b[|b| - 1];
      LabelSpansAppend(a, b');
    }
  }

  /** Every rendering is one list: it opens with `<ul>` and a newline and closes with `</ul>` and a newline. */
  lemma RenderIsList(prs: seq<Pr>, parent: string, depth: U8, fuel: nat)
    requires Render(prs, parent, depth, fuel).Some?
    ensures var s := Render(prs, parent, depth, fuel).value;
            |s| >= 11 && s[..5] == "<ul>\n" && s[|s| - 6..] == "</ul>\n"
  {
    hide *;
    LevelStart(prs, parent, depth, fuel);
    LevelShape(prs, parent, depth, fuel);
    var body := RenderAll(prs, Children(prs, parent), depth, fuel - 1).value;
    var s := "<ul>\n" + body + "</ul>\n";
    assert s[..5] == "<ul>\n";
    assert s[|s| - 6..] == "</ul>\n";
  }

  /** A non-empty list of completed items is a non-empty string. */
  lemma {:induction false} RenderAllNonEmpty(prs: seq<Pr>, kids: seq<Pr>, depth: U8, fuel: nat)
    requires kids != [] && RenderAll(prs, kids, depth, fuel).Some?
    ensures |RenderAll(prs, kids, depth, fuel).value| > 0
  {
    hide ItemHead, LabelSpans;
  }

  /**
   * A level is the empty list `<ul>\n</ul>\n` exactly when no PR targets its
   * parent branch: a PR whose head branch nobody targets is a leaf.
   */
  lemma LeafIffNoChildren(prs: seq<Pr>, parent: string, depth: U8, fuel: nat)
    requires fuel > 0
    ensures Render(prs, parent, depth, fuel) == Some("<ul>\n</ul>\n")
        <==> forall p :: p in prs ==> p.base != parent
  {
    hide *;
    LevelShape(prs, parent, depth, fuel);
    var kids := Children(prs, parent);
    if forall p :: p in prs ==> p.base != parent {
      if kids != [] {
        SelectedTargets(prs, parent, 0);
        assert false;
      }
      NoItems(prs, depth, fuel - 1);
      assert "<ul>\n" + "" + "</ul>\n" == "<ul>\n</ul>\n";
    } else {
      var p :| p in prs && p.base == parent;
      ChildIsSelected(prs, parent, p);
      var r := RenderAll(prs, kids, depth, fuel - 1);
      if r.Some? {
        RenderAllNonEmpty(prs, kids, depth, fuel - 1);
        assert |"<ul>\n" + r.value + "</ul>\n"| > |"<ul>\n</ul>\n"|;
      }
    }
  }

  lemma NoItems(prs: seq<Pr>, depth: U8, fuel: nat)
    ensures RenderAll(prs, [], depth, fuel) == Some("")
  {
  }

  /** `depth` is only passed on: it never changes the output. */
  lemma {:induction false} RenderDepthIrrelevant(prs: seq<Pr>, parent: string, d1: U8, d2: U8, fuel: nat)
    ensures Render(prs, parent, d1, fuel) == Render(prs, parent, d2, fuel)
    decreases fuel, 0
  {
    if fuel > 0 {
      RenderAllDepthIrrelevant(prs, Children(prs, parent), d1, d2, fuel - 1);
    }
  }

  lemma {:induction false} RenderAllDepthIrrelevant(prs: seq<Pr>, kids: seq<Pr>, d1: U8, d2: U8, fuel: nat)
    ensures RenderAll(prs, kids, d1, fuel) == RenderAll(prs, kids, d2, fuel)
    decreases fuel, |kids| + 1
  {
    hide Item;
    if kids != [] {
      RenderAllDepthIrrelevant(prs, kids[..|kids| - 1], d1, d2, fuel);
      RenderDepthIrrelevant(prs, kids[|kids| - 1].head, NextDepth(d1), NextDepth(d2), fuel);
    }
  }

  /** Once a rendering completes, more fuel does not change it. */
  lemma {:induction false} RenderFuelMonotone(prs: seq<Pr>, parent: string, depth: U8, fuel: nat, more: nat)
    requires Render(prs, parent, depth, fuel).Some?
    ensures Render(prs, parent, depth, fuel + more) == Render(prs, parent, depth, fuel)
    decreases fuel, 0
  {
    RenderAllFuelMonotone(prs, Children(prs, parent), depth, fuel - 1, more);
  }

  lemma {:induction false} RenderAllFuelMonotone(prs: seq<Pr>, kids: seq<Pr>, depth: U8, fuel: nat, more: nat)
    requires RenderAll(prs, kids, depth, fuel).Some?
    ensures RenderAll(prs, kids, depth, fuel + more) == RenderAll(prs, kids, depth, fuel)
    decreases fuel, |kids| + 1
  {
    hide Item;
    if kids != [] {
      RenderAllFuelMonotone(prs, kids[..|kids| - 1], depth, fuel, more);
      RenderFuelMonotone(prs, kids[|kids| - 1].head, NextDepth(depth), fuel, more);
    }
  }

  /**
   * The branch links are acyclic when branches can be ranked so that every PR
   * leads from its base to a branch of smaller rank.
   */
  ghost predicate Ranked(prs: seq<Pr>, rank: string -> nat) {
    forall p :: p in prs ==> rank(p.head) < rank(p.base)
  }

  /** On acyclic branch links the recursion ends: `rank(parent) + 1` levels are enough. */
  lemma {:induction false} RankedRenders(prs: seq<Pr>, parent: string, depth: U8, fuel: nat, rank: string -> nat)
    requires Ranked(prs, rank) && fuel > rank(parent)
    ensures Render(prs, parent, depth, fuel).Some?
    decreases fuel, 0
  {
    ChildrenMembers(prs, parent);
    RankedRenderAll(prs, Children(prs, parent), parent, depth, fuel - 1, rank);
  }

  lemma {:induction false} RankedRenderAll(prs: seq<Pr>, kids: seq<Pr>, parent: string, depth: U8, fuel: nat,
                                          rank: string -> nat)
    requires Ranked(prs, rank) && fuel >= rank(parent)
    requires forall k :: k in kids ==> k in prs && k.base == parent
    ensures RenderAll(prs, kids, depth, fuel).Some?
    decreases fuel, |kids| + 1
  {
    hide Item;
    if kids != [] {
      var init, k := kids[..|kids| - 1], kids[|kids| - 1];
      assert forall x :: x in init ==> x in kids;
      RankedRenderAll(prs, init, parent, depth, fuel, rank);
      assert k in kids;
      RankedRenders(prs, k.head, NextDepth(depth), fuel, rank);
    }
  }

  /**
   * A set of branches from each of which some PR leads back into the set: a walk
   * along the branch links never has to stop inside it (a cycle, or a path into one).
   */
  ghost predicate Closed(prs: seq<Pr>, branches: set<string>) {
    forall b {:trigger LeadsInto(prs, b, branches)} :: b in branches ==> LeadsInto(prs, b, branches)
  }

  /** Some PR leads from branch `b` to a branch in `branches`. */
  ghost predicate LeadsInto(prs: seq<Pr>, b: string, branches: set<string>) {
    exists p :: p in prs && p.base == b && p.head in branches
  }

  /** A cycle reachable from `parent` makes the recursion never complete: no fuel suffices. */
  lemma {:induction false} ClosedDiverges(prs: seq<Pr>, branches: set<string>, parent: string, depth: U8, fuel: nat)
    requires Closed(prs, branches) && parent in branches
    ensures Render(prs, parent, depth, fuel) == None
    decreases fuel
  {
    hide Item, ItemHead, LabelSpans, LabelSpan;
    if fuel > 0 {
      assert LeadsInto(prs, parent, branches);
      var p :| p in prs && p.base == parent && p.head in branches;
      ClosedDiverges(prs, branches, p.head, NextDepth(depth), fuel - 1);
      ChildIsSelected(prs, parent, p);
      RenderAllNoneIfMember(prs, Children(prs, parent), p, depth, fuel - 1);
    }
  }

  /** One selected PR whose nested list cannot be completed leaves the whole list incomplete. */
  lemma {:induction false} RenderAllNoneIfMember(prs: seq<Pr>, kids: seq<Pr>, k: Pr, depth: U8, fuel: nat)
    requires k in kids && Render(prs, k.head, NextDepth(depth), fuel) == None
    ensures RenderAll(prs, kids, depth, fuel) == None
    decreases |kids|
  {
    hide Item;
    var n := |kids|;
    if kids[n - 1] != k {
      assert k in kids[..n - 1];
      RenderAllNoneIfMember(prs, kids[..n - 1], k, depth, fuel);
    }
  }

  /** A PR whose head is its own base: rendering from its base branch never completes. */
  lemma SelfLoopDiverges(prs: seq<Pr>, pr: Pr, depth: U8, fuel: nat)
    requires pr in prs && pr.head == pr.base
    ensures Render(prs, pr.base, depth, fuel) == None
  {
    assert LeadsInto(prs, pr.base, {pr.base});
    ClosedDiverges(prs, {pr.base}, pr.base, depth, fuel);
  }

  /** Two PRs that target each other's head branch: rendering from `a.base` never completes. */
  lemma MutualPairDiverges(prs: seq<Pr>, a: Pr, b: Pr, depth: U8, fuel: nat)
    requires a in prs && b in prs && a.head == b.base && b.head == a.base
    ensures Render(prs, a.base, depth, fuel) == None
  {
    assert LeadsInto(prs, a.base, {a.base, b.base});
    assert LeadsInto(prs, b.base, {a.base, b.base});
    ClosedDiverges(prs, {a.base, b.base}, a.base, depth, fuel);
  }

  lemma StackedPairSelection(a: Pr, b: Pr)
    requires a.base == "main" && a.head == "feat-a"
    requires b.base == "feat-a" && b.head == "feat-b"
    ensures Children([a, b], "main") == [a]
    ensures Children([a, b], "feat-a") == [b]
    ensures Children([a, b], "feat-b") == []
  {
    var prs := [a, b];
    assert prs[..1] == [a] && [a][..0] == [];
    assert "feat-a" != "main" && "feat-b" != "main" && "feat-b" != "feat-a";
    assert Children([a], "main") == [a];
    assert Children([a], "feat-a") == [];
    assert Children([a], "feat-b") == [];
  }

  lemma StackedPairLeaf(a: Pr, b: Pr)
    requires Children([a, b], "feat-b") == []
    ensures Render([a, b], "feat-b", 2, 1) == Some("<ul>\n</ul>\n")
    ensures Render([a, b], "feat-b", 2, 0) == None
  {
    hide Item, ItemHead, LabelSpans, LabelSpan, Children, Render, RenderAll;
    LevelShape([a, b], "feat-b", 2, 1);
    LevelStart([a, b], "feat-b", 2, 0);
    NoItems([a, b], 2, 0);
    assert "<ul>\n" + "" + "</ul>\n" == "<ul>\n</ul>\n";
  }

  /** The items of a one-element selection are that element's item. */
  lemma SingleItem(prs: seq<Pr>, k: Pr, depth: U8, fuel: nat)
    ensures Render(prs, k.head, NextDepth(depth), fuel).None? ==> RenderAll(prs, [k], depth, fuel) == None
    ensures Render(prs, k.head, NextDepth(depth), fuel).Some? ==>
              RenderAll(prs, [k], depth, fuel) == Some(Item(k, Render(prs, k.head, NextDepth(depth), fuel).value))
  {
    hide Item, Render;
    assert [k][..0] == [];
    var sub := Render(prs, k.head, NextDepth(depth), fuel);
    if sub.Some? {
      assert "" + Item(k, sub.value) == Item(k, sub.value);
    }
  }

  /**
   * Two stacked PRs: #1 targets `main`, #2 targets #1's head branch. #1 is the
   * only item at the top, #2 is the only item nested in it, and #2's own list is
   * empty; three levels are needed, two are not enough.
   */
  lemma StackedPairExample(a: Pr, b: Pr)
    requires a.base == "main" && a.head == "feat-a" && a.number == 1
    requires b.base == "feat-a" && b.head == "feat-b" && b.number == 2
    ensures Render([a, b], "main", 0, 3)
         == Some("<ul>\n" + Item(a, "<ul>\n" + Item(b, "<ul>\n</ul>\n") + "</ul>\n") + "</ul>\n")
    ensures Render([a, b], "main", 0, 2) == None
  {
    hide Item, ItemHead, LabelSpans, LabelSpan, Children, Render, RenderAll;
    var prs := [a, b];
    StackedPairSelection(a, b);
    StackedPairLeaf(a, b);
    // three levels of fuel
    SingleItem(prs, b, 1, 1);
    LevelShape(prs, "feat-a", 1, 2);
    SingleItem(prs, a, 0, 2);
    LevelShape(prs, "main", 0, 3);
    // two levels of fuel
    SingleItem(prs, b, 1, 0);
    LevelShape(prs, "feat-a", 1, 1);
    SingleItem(prs, a, 0, 1);
    LevelShape(prs, "main", 0, 2);
  }

  /**
   * A chain of PRs none of which targets `main` is not shown at all: #1 targets
   * `orphan` and #2 targets #1's head, but nothing leads from `main` to `orphan`.
   */
  lemma UnreachableOmitted(a: Pr, b: Pr, fuel: nat)
    requires a.base == "orphan" && a.head == "feat-x"
    requires b.base == "feat-x" && b.head == "feat-y"
    requires fuel > 0
    ensures Render([a, b], "main", 0, fuel) == Some("<ul>\n</ul>\n")
  {
    assert forall p :: p in [a, b] ==> p == a || p == b;
    LeafIffNoChildren([a, b], "main", 0, fuel);
  }

  lemma SharedHeadSelection(a1: Pr, a2: Pr, b: Pr)
    requires a1.base == "main" && a1.head == "shared"
    requires a2.base == "main" && a2.head == "shared"
    requires b.base == "shared" && b.head == "leaf"
    ensures Children([a1, a2, b], "main") == [a1, a2]
    ensures Children([a1, a2, b], "shared") == [b]
    ensures Children([a1, a2, b], "leaf") == []
  {
    assert [a1, a2, b][..2] == [a1, a2] && [a1, a2][..1] == [a1] && [a1][..0] == [];
    assert "shared" != "main" && "leaf" != "main" && "leaf" != "shared";
    assert Children([a1], "main") == [a1];
    assert Children([a1], "shared") == [] && Children([a1], "leaf") == [];
    assert Children([a1, a2], "main") == [a1, a2];
    assert Children([a1, a2], "shared") == [];
    assert Children([a1, a2], "leaf") == [];
  }

  /**
   * Two PRs with the same head branch `shared` both target `main`; a third PR
   * targets `shared`. That third PR is shown twice, once under each of the two.
   */
  lemma SharedHeadDuplicates(a1: Pr, a2: Pr, b: Pr)
    requires a1.base == "main" && a1.head == "shared"
    requires a2.base == "main" && a2.head == "shared"
    requires b.base == "shared" && b.head == "leaf"
    ensures var nested := "<ul>\n" + Item(b, "<ul>\n</ul>\n") + "</ul>\n";
            Render([a1, a2, b], "main", 0, 3) == Some("<ul>\n" + Item(a1, nested) + Item(a2, nested) + "</ul>\n")
  {
    hide Item, ItemHead, LabelSpans, LabelSpan, Children, Render, RenderAll;
    var prs := [a1, a2, b];
    var nested := "<ul>\n" + Item(b, "<ul>\n</ul>\n") + "</ul>\n";
    SharedHeadSelection(a1, a2, b);
    // the leaf level under `leaf`
    LevelShape(prs, "leaf", 2, 1);
    NoItems(prs, 2, 0);
    assert "<ul>\n" + "" + "</ul>\n" == "<ul>\n</ul>\n";
    assert Render(prs, "leaf", 2, 1) == Some("<ul>\n</ul>\n");
    // the level under `shared`
    SingleItem(prs, b, 1, 1);
    LevelShape(prs, "shared", 1, 2);
    assert Render(prs, "shared", 1, 2) == Some(nested);
    // the top level, where both PRs with head `shared` are items
    SingleItem(prs, a1, 0, 2);
    assert RenderAll(prs, [a1], 0, 2) == Some(Item(a1, nested));
    RenderAllSnoc(prs, [a1], a2, 0, 2);
    assert [a1] + [a2] == [a1, a2];
    assert RenderAll(prs, [a1, a2], 0, 2) == Some(Item(a1, nested) + Item(a2, nested));
    LevelShape(prs, "main", 0, 3);
    assert "<ul>\n" + (Item(a1, nested) + Item(a2, nested)) + "</ul>\n"
        == "<ul>\n" + Item(a1, nested) + Item(a2, nested) + "</ul>\n";
  }

  // ---------------------------------------------------------------------------
  // How many levels are enough

  /** `path` is a walk of PRs from branch `b`: each PR targets the head of the one before. */
  ghost predicate PathFrom(prs: seq<Pr>, b: string, path: seq<Pr>) {
    && (forall k :: 0 <= k < |path| ==> path[k] in prs)
    && (|path| > 0 ==> path[0].base == b)
    && (forall k :: 1 <= k < |path| ==> path[k].base == path[k - 1].head)
  }

  /** An incomplete list of items has an item whose nested list is incomplete. */
  lemma {:induction false} StuckMember(prs: seq<Pr>, kids: seq<Pr>, depth: U8, fuel: nat) returns (k: Pr)
    requires RenderAll(prs, kids, depth, fuel) == None
    ensures k in kids && Render(prs, k.head, NextDepth(depth), fuel) == None
    decreases |kids|
  {
    hide Item, Render;
    var n := |kids|;
    if Render(prs, kids[n - 1].head, NextDepth(depth), fuel) == None {
      k := kids[n - 1];
    } else {
      k := StuckMember(prs, kids[..n - 1], depth, fuel);
    }
  }

  /** A rendering that is incomplete after `fuel` levels has a walk of `fuel` PRs from `parent`. */
  lemma {:induction false} StuckPath(prs: seq<Pr>, parent: string, depth: U8, fuel: nat) returns (path: seq<Pr>)
    requires Render(prs, parent, depth, fuel) == None
    ensures |path| == fuel && PathFrom(prs, parent, path)
    decreases fuel
  {
    if fuel == 0 {
      path := [];
    } else {
      LevelShape(prs, parent, depth, fuel);
      var k := StuckMember(prs, Children(prs, parent), depth, fuel - 1);
      ChildrenMembers(prs, parent);
      var rest := StuckPath(prs, k.head, NextDepth(depth), fuel - 1);
      path := [k] + rest;
      assert forall i :: 1 <= i < |path| ==> path[i] == rest[i - 1];
    }
  }

  /** `s` with every occurrence of `x` removed. */
  function Without(s: seq<Pr>, x: Pr): (r: seq<Pr>)
    ensures |r| <= |s| && (x in s ==> |r| < |s|)
    ensures forall y :: y in s && y != x ==> y in r
  {
    if s == [] then [] else (if s[0] == x then [] else [s[0]]) + Without(s[1..], x)
  }

  /** A walk longer than the PR list uses some PR twice. */
  lemma {:induction false} Repeats(prs: seq<Pr>, path: seq<Pr>) returns (i: nat, j: nat)
    requires |path| > |prs| && forall k :: 0 <= k < |path| ==> path[k] in prs
    ensures i < j < |path| && path[i] == path[j]
    decreases |prs|
  {
    var n := |path|;
    var x, init := path[n - 1], path[..n - 1];
    if x in init {
      i :| 0 <= i < n - 1 && init[i] == x;
      j := n - 1;
    } else {
      var rest := Without(prs, x);
      forall k | 0 <= k < |init| ensures init[k] in rest {
        assert init[k] in prs && init[k] != x;
      }
      i, j := Repeats(rest, init);
    }
  }

  /** A PR used twice on a walk from `parent` closes a cycle reachable from `parent`. */
  lemma RepeatCloses(prs: seq<Pr>, parent: string, path: seq<Pr>, i: nat, j: nat) returns (loop: set<string>)
    requires PathFrom(prs, parent, path) && i < j < |path| && path[i] == path[j]
    ensures parent in loop && Closed(prs, loop)
  {
    loop := {parent} + set k | 0 <= k < j :: path[k].head;
    forall b | b in loop ensures LeadsInto(prs, b, loop) {
      if b == parent {
        assert path[0] in prs && path[0].base == b && path[0].head in loop;
      } else {
        var k :| 0 <= k < j && path[k].head == b;
        if k + 1 < j {
          assert path[k + 1] in prs && path[k + 1].base == b && path[k + 1].head in loop;
        } else {
          assert path[i].head in loop;
          assert path[j] in prs && path[j].base == b && path[j].head in loop;
        }
      }
    }
  }

  /**
   * A rendering that completes with any fuel completes, with the same result,
   * within `|prs| + 1` levels: a longer walk would use some PR twice, and that
   * closes a cycle, on which no fuel suffices.
   */
  lemma CompletesWithin(prs: seq<Pr>, parent: string, depth: U8, fuel: nat)
    requires Render(prs, parent, depth, fuel).Some?
    ensures Render(prs, parent, depth, |prs| + 1) == Render(prs, parent, depth, fuel)
  {
    var bound := |prs| + 1;
    if fuel <= bound {
      RenderFuelMonotone(prs, parent, depth, fuel, bound - fuel);
    } else {
      if Render(prs, parent, depth, bound) == None {
        var path := StuckPath(prs, parent, depth, bound);
        var i, j := Repeats(prs, path);
        var loop := RepeatCloses(prs, parent, path, i, j);
        ClosedDiverges(prs, loop, parent, depth, fuel);
        assert false;
      }
      RenderFuelMonotone(prs, parent, depth, bound, fuel - bound);
    }
  }

  /** With `|prs| + 1` levels the rendering is incomplete exactly when no fuel suffices. */
  lemma NeverCompletes(prs: seq<Pr>, parent: string, depth: U8)
    ensures Render(prs, parent, depth, |prs| + 1).None? <==> forall fuel :: Render(prs, parent, depth, fuel).None?
  {
    if exists fuel :: Render(prs, parent, depth, fuel).Some? {
      var fuel :| Render(prs, parent, depth, fuel).Some?;
      CompletesWithin(prs, parent, depth, fuel);
    }
  }
}
