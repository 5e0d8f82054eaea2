/** `pkg/nuclide-file-tree/components/FileTree.js`: the virtual-scroll window
    of the file tree. Only the rows near the scroll position are rendered; two
    placeholders stand in for the rows above and below them. */
module FileTreeView {
  import opened Wrappers
  import opened Seqs

  /** Rows rendered above and below the visible part. */
  const BufferElements: int := 15

  /** The part of a tree node the view reads. `shownChildrenCount` is the
      number of rows the node and its shown descendants take up. */
  datatype Node = Node(uri: string, isRoot: bool, shown: bool, expanded: bool,
                       shownChildrenCount: nat, children: seq<Node>)

  /** The counts of `ns` added up, from the first node to the last. */
  function SumCounts(ns: seq<Node>): nat
  {
    if |ns| == 0 then 0 else SumCounts(ns[..|ns| - 1]) + ns[|ns| - 1].shownChildrenCount
  }

  /** A node's count is one row for itself, when shown, plus the rows of its
      children when it is expanded; and so for every descendant. */
  predicate CountsWf(n: Node)
    decreases n
  {
    n.shownChildrenCount == (if !n.shown then 0 else 1 + (if n.expanded then SumCounts(n.children) else 0))
    && forall c :: c in n.children ==> CountsWf(c)
  }

  predicate AllWf(ns: seq<Node>) {
    forall c :: c in ns ==> CountsWf(c)
  }

  /** The rows of a node, top to bottom: the node, then the rows of its
      children if it is expanded (the order `findNext` walks). */
  function Listed(n: Node): seq<Node>
    decreases n, 1
  {
    if !n.shown then [] else [n] + (if n.expanded then ListedAll(n.children) else [])
  }

  function ListedAll(ns: seq<Node>): seq<Node>
    decreases ns, 0
  {
    if |ns| == 0 then [] else ListedAll(ns[..|ns| - 1]) + Listed(ns[|ns| - 1])
  }

  /** A node's count is the number of its rows. */
  lemma {:induction false} ListedLength(n: Node)
    requires CountsWf(n)
    ensures |Listed(n)| == n.shownChildrenCount
    decreases n, 1
  {
    if n.shown && n.expanded {
      AllListedLength(n.children);
    }
  }

  /** `countShownNodes`: the counts of the roots add up to the number of rows
      of the whole tree. */
  lemma {:induction false} AllListedLength(ns: seq<Node>)
    requires AllWf(ns)
    ensures |ListedAll(ns)| == CountShownNodes(ns)
    decreases ns, 0
  {
    if |ns| > 0 {
      AllListedLength(ns[..|ns| - 1]);
      ListedLength(ns[|ns| - 1]);
    }
  }

  lemma {:induction false} ListedAllAppend(a: seq<Node>, b: seq<Node>)
    ensures ListedAll(a + b) == ListedAll(a) + ListedAll(b)
    decreases |b|
  {
    if |b| == 0 {
      assert a + b == a;
    } else {
      ListedAllAppend(a, b[..|b| - 1]);
      AppendStep(a, b);
    }
  }

  lemma AppendStep(a: seq<Node>, b: seq<Node>)
    requires |b| > 0 && ListedAll(a + b[..|b| - 1]) == ListedAll(a) + ListedAll(b[..|b| - 1])
    ensures ListedAll(a + b) == ListedAll(a) + ListedAll(b)
  {
    var b', last := b[..|b| - 1], b[|b| - 1];
    SnocOfAppend(a, b);
    ListedAllUnfold(a + b, a + b', last);
    ListedAllUnfold(b, b', last);
    Assoc(ListedAll(a), ListedAll(b'), Listed(last));
  }

  lemma SnocOfAppend(a: seq<Node>, b: seq<Node>)
    requires |b| > 0
    ensures |a + b| > 0 && (a + b)[..|a + b| - 1] == a + b[..|b| - 1] && (a + b)[|a + b| - 1] == b[|b| - 1]
  {
  }

  lemma Assoc(x: seq<Node>, y: seq<Node>, z: seq<Node>)
    ensures (x + y) + z == x + (y + z)
  {
  }

  lemma ListedAllUnfold(ns: seq<Node>, init: seq<Node>, last: Node)
    requires |ns| > 0 && ns[..|ns| - 1] == init && ns[|ns| - 1] == last
    ensures ListedAll(ns) == ListedAll(init) + Listed(last)
  {
  }

  /** `countShownNodes`. */
  function CountShownNodes(roots: seq<Node>): nat {
    SumCounts(roots)
  }

  /** `findFirstNodeToRender`: the node on row `first`. */
  function FindFirstNodeToRender(roots: seq<Node>, first: int): Option<Node>
    decreases roots, 1, 0
  {
    FindIn(roots, 0, 0, first)
  }

  /** `roots.find` from index `i`, with `skipped` the rows of the roots before
      it, then the check that decides between that root and its children. */
  function FindIn(ns: seq<Node>, i: nat, skipped: int, first: int): Option<Node>
    requires i <= |ns|
    decreases ns, 0, |ns| - i
  {
    if i == |ns| then None
    else if skipped + ns[i].shownChildrenCount > first then
      if skipped == first then Some(ns[i])
      else FindFirstNodeToRender(ns[i].children, first - skipped - 1)
    else FindIn(ns, i + 1, skipped + ns[i].shownChildrenCount, first)
  }

  /** An index at or past the total count finds no node, whatever the counts
      below the roots say. */
  lemma FindPastEnd(roots: seq<Node>, first: int)
    requires first >= CountShownNodes(roots)
    ensures FindFirstNodeToRender(roots, first).None?
  {
    FindInPastEnd(roots, 0, first);
  }

  lemma {:induction false} FindInPastEnd(ns: seq<Node>, i: nat, first: int)
    requires i <= |ns| && first >= SumCounts(ns)
    ensures FindIn(ns, i, SumCounts(ns[..i]), first).None?
    decreases |ns| - i
  {
    if i < |ns| {
      assert ns[..i + 1][..i] == ns[..i];
      PrefixSumAtMost(ns, i + 1);
      FindInPastEnd(ns, i + 1, first);
    }
  }

  lemma {:induction false} PrefixSumAtMost(ns: seq<Node>, i: nat)
    requires i <= |ns|
    ensures SumCounts(ns[..i]) <= SumCounts(ns)
    decreases |ns| - i
  {
    if i < |ns| {
      assert ns[..i + 1][..i] == ns[..i];
      PrefixSumAtMost(ns, i + 1);
    } else {
      assert ns[..i] == ns;
    }
  }

  /** `findFirstNodeToRender` finds a root itself when the rows of the roots
      before it add up to the index asked for. */
  lemma FindRootRow(roots: seq<Node>, i: nat, first: int)
    requires i < |roots| && roots[i].shownChildrenCount > 0 && first == SumCounts(roots[..i])
    ensures FindFirstNodeToRender(roots, first) == Some(roots[i])
  {
    assert roots[..0] == [];
    FindInRootRow(roots, 0, i, first);
  }

  lemma {:induction false} FindInRootRow(ns: seq<Node>, j: nat, i: nat, first: int)
    requires j <= i < |ns| && ns[i].shownChildrenCount > 0 && first == SumCounts(ns[..i])
    ensures FindIn(ns, j, SumCounts(ns[..j]), first) == Some(ns[i])
    decreases i - j
  {
    if j < i {
      assert ns[..j + 1][..j] == ns[..j];
      assert ns[..i][..j + 1] == ns[..j + 1];
      PrefixSumAtMost(ns[..i], j + 1);
      FindInRootRow(ns, j + 1, i, first);
    }
  }

  /** When the counts are what the nodes compute, `findFirstNodeToRender` finds
      the node on row `first` of the listing, and nothing past its end. */
  lemma {:induction false} FindFirstIsListed(roots: seq<Node>, first: int)
    requires AllWf(roots) && first >= 0
    ensures |ListedAll(roots)| == CountShownNodes(roots)
    ensures FindFirstNodeToRender(roots, first) ==
            if first < CountShownNodes(roots) then Some(ListedAll(roots)[first]) else None
    decreases roots, 1, 0
  {
    AllListedLength(roots);
    assert roots[..0] == [];
    FindInIsListed(roots, 0, 0, first);
  }

  lemma {:induction false} FindInIsListed(ns: seq<Node>, i: nat, skipped: int, first: int)
    requires AllWf(ns) && i <= |ns| && skipped == SumCounts(ns[..i]) && skipped <= first
    ensures |ListedAll(ns)| == SumCounts(ns)
    ensures FindIn(ns, i, skipped, first) ==
            if first < SumCounts(ns) then Some(ListedAll(ns)[first]) else None
    decreases ns, 0, |ns| - i
  {
    AllListedLength(ns);
    if i == |ns| {
      assert ns[..i] == ns;
    } else {
      var n := ns[i];
      var c := n.shownChildrenCount;
      assert ns[..i + 1][..i] == ns[..i];
      if skipped + c > first {
        FoundRow(ns, i, skipped, first);
      } else {
        FindInIsListed(ns, i + 1, skipped + c, first);
      }
    }
  }

  /** The step where root `ns[i]` holds row `first`. */
  lemma {:induction false} FoundRow(ns: seq<Node>, i: nat, skipped: int, first: int)
    requires AllWf(ns) && i < |ns| && skipped == SumCounts(ns[..i]) && skipped <= first
    requires skipped + ns[i].shownChildrenCount > first
    ensures |ListedAll(ns)| == SumCounts(ns)
    ensures first < SumCounts(ns)
    ensures FindIn(ns, i, skipped, first) == Some(ListedAll(ns)[first])
    decreases ns, 0, 0
  {
    var n := ns[i];
    assert n in ns;
    AllListedLength(ns);
    AllListedLength(ns[..i]);
    ListedLength(n);
    RowInRoot(ns, i, first - skipped);
    if skipped != first {
      assert n.shown && n.expanded;
      AllListedLength(n.children);
      FindFirstIsListed(n.children, first - skipped - 1);
    }
  }

  /** The rows of the roots before `ns[i]` come first, then those of `ns[i]`. */
  lemma RowInRoot(ns: seq<Node>, i: nat, d: nat)
    requires i < |ns| && d < |Listed(ns[i])|
    ensures |ListedAll(ns[..i])| + d < |ListedAll(ns)|
    ensures ListedAll(ns)[|ListedAll(ns[..i])| + d] == Listed(ns[i])[d]
  {
    ListedAllSplit(ns, i);
  }

  lemma ListedAllSplit(ns: seq<Node>, i: nat)
    requires i < |ns|
    ensures ListedAll(ns) == ListedAll(ns[..i]) + Listed(ns[i]) + ListedAll(ns[i + 1..])
  {
    ListedAllPrefix(ns, i);
    SplitAfter(ns, i);
    ListedAllAppend(ns[..i + 1], ns[i + 1..]);
  }

  lemma ListedAllPrefix(ns: seq<Node>, i: nat)
    requires i < |ns|
    ensures ListedAll(ns[..i + 1]) == ListedAll(ns[..i]) + Listed(ns[i])
  {
    var pre := ns[..i + 1];
    assert pre[..|pre| - 1] == ns[..i] && pre[|pre| - 1] == ns[i];
  }

  lemma SplitAfter(ns: seq<Node>, i: nat)
    requires i < |ns|
    ensures ns == ns[..i + 1] + ns[i + 1..]
  {
  }

  // ---------------------------------------------------------------------
  // The window

  /** `Math.ceil(a / b)` for a positive divisor. */
  function CeilDiv(a: int, b: int): (q: int)
    requires b > 0
    ensures (q - 1) * b < a <= q * b
  {
    var d := (-a) / b;
    assert (-a) == d * b + (-a) % b;
    -d
  }

  /** The rows on screen, the first row rendered, and how many are rendered. */
  datatype Window = Window(elementsInView: int, firstToRender: int, amountToRender: int)

  /** The window arithmetic of `_renderChildren`. Heights are whole pixels, so
      `Math.floor` and `Math.ceil` are floor and ceiling division. */
  function WindowFor(childrenCount: int, scrollTop: int, containerHeight: int, elementHeight: int): (w: Window)
    requires containerHeight >= 0 && elementHeight > 0
    // as many rows as it takes to fill the container, and no more
    ensures (w.elementsInView - 1) * elementHeight < containerHeight <= w.elementsInView * elementHeight
    ensures w.elementsInView >= 0
    ensures w.amountToRender == w.elementsInView + 2 * BufferElements
    // never before the first row, and never past the start of the last full screen
    ensures w.firstToRender >= 0
    ensures childrenCount - w.elementsInView >= 0 ==> w.firstToRender <= childrenCount - w.elementsInView
    // otherwise the buffer above the top row on screen
    ensures var wanted := scrollTop / elementHeight - BufferElements;
            w.firstToRender == 0 || w.firstToRender == wanted || w.firstToRender == childrenCount - w.elementsInView
    ensures var wanted := scrollTop / elementHeight - BufferElements;
            w.firstToRender <= if wanted >= 0 then wanted else 0
  {
    var inView := CeilDiv(containerHeight, elementHeight);
    var first := scrollTop / elementHeight - BufferElements;
    var first' := if first > childrenCount - inView then childrenCount - inView else first;
    Window(inView, if first' > 0 then first' else 0, inView + 2 * BufferElements)
  }

  /** Every row on screen that exists is inside the rendered window. */
  lemma WindowCoversScreen(childrenCount: int, scrollTop: int, containerHeight: int, elementHeight: int)
    requires containerHeight >= 0 && elementHeight > 0 && scrollTop >= 0
    ensures var w := WindowFor(childrenCount, scrollTop, containerHeight, elementHeight);
            var top := scrollTop / elementHeight;
            w.firstToRender <= top
            && (top + w.elementsInView <= w.firstToRender + w.amountToRender
                || childrenCount <= w.firstToRender + w.amountToRender)
  {
  }

  // ---------------------------------------------------------------------
  // Rendering

  /** `reorderPreviewStatus`, with whether `getNode(source, source)` found the
      dragged root. */
  datatype ReorderStatus = ReorderStatus(sourceFound: bool, sourceIdx: int, target: Option<string>, targetIdx: Option<int>)

  /** The dragged root drawn as a preview, above or below the target root. */
  datatype Preview = Preview(target: string, above: bool)

  /** A rendered row with its React key and whether it carries the `measured`
      ref, or the preview of the dragged root. */
  datatype Entry = Row(key: int, node: Node, measured: bool) | PreviewRow

  datatype View = ProjectSelection | Scrolled(topPlaceholderSize: int, entries: seq<Entry>, bottomPlaceholderCount: int)

  /** A preview is drawn only when the dragged root was found and would move. */
  function PreviewFor(status: Option<ReorderStatus>): (p: Option<Preview>)
    ensures p.Some? <==> status.Some? && status.value.sourceFound && status.value.target.Some?
                         && status.value.targetIdx.Some? && status.value.targetIdx.value != status.value.sourceIdx
    ensures p.Some? ==> p.value.target == status.value.target.value
                        && (p.value.above <==> status.value.targetIdx.value < status.value.sourceIdx)
  {
    match status
    case None => None
    case Some(st) =>
      if st.sourceFound && st.target.Some? && st.targetIdx.Some? && st.targetIdx.value != st.sourceIdx
      then Some(Preview(st.target.value, st.targetIdx.value < st.sourceIdx))
      else None
  }

  /** Row `t` is the first of `nodes` that is not a root: it gets the
      `measured` ref. */
  predicate IsFirstNonRoot(nodes: seq<Node>, t: int) {
    0 <= t < |nodes| && !nodes[t].isRoot && forall u :: 0 <= u < t ==> nodes[u].isRoot
  }

  /** The first `m` rows of `nodes`, keyed by their row number modulo
      `amount` counting from `start`. */
  function ExpectedRows(nodes: seq<Node>, start: int, amount: int, m: nat): seq<Entry>
    requires amount > 0 && m <= |nodes|
  {
    seq(m, t requires 0 <= t < m => Row((start + t) % amount, nodes[t], IsFirstNonRoot(nodes, t)))
  }

  function Rows(entries: seq<Entry>): seq<Entry> {
    Filter(entries, IsRow())
  }

  function IsRow(): Entry -> bool {
    (e: Entry) => e.Row?
  }

  /** Entry `j`, a preview, sits directly above (or below) a row of the
      target. */
  predicate PreviewBeside(entries: seq<Entry>, j: int, p: Preview)
    requires 0 <= j < |entries|
  {
    if p.above then j + 1 < |entries| && entries[j + 1].Row? && entries[j + 1].node.uri == p.target
    else 0 < j && entries[j - 1].Row? && entries[j - 1].node.uri == p.target
  }

  /** Row `j` is a row of the target, with the preview directly above (or
      below) it. */
  predicate RowBeside(entries: seq<Entry>, j: int, p: Preview)
    requires 0 <= j < |entries|
  {
    if p.above then 0 < j && entries[j - 1].PreviewRow?
    else j + 1 < |entries| && entries[j + 1].PreviewRow?
  }

  predicate PreviewsPlaced(entries: seq<Entry>, preview: Option<Preview>) {
    (forall j :: 0 <= j < |entries| && entries[j].PreviewRow? ==> preview.Some? && PreviewBeside(entries, j, preview.value))
    && (forall j :: 0 <= j < |entries| && entries[j].Row? && preview.Some? && entries[j].node.uri == preview.value.target ==>
          RowBeside(entries, j, preview.value))
  }

  /** The loop of `_renderChildren`: walks the listing from the first node to
      render until it ends or `amount` entries (previews included) are out.
      `m` is the number of nodes rendered. */
  method RenderEntries(nodes: seq<Node>, start: int, amount: int, preview: Option<Preview>) returns (entries: seq<Entry>, m: nat)
    requires amount > 0
    ensures m <= |nodes| && m <= amount && |entries| <= amount + 1
    ensures m == |nodes| || |entries| >= amount
    ensures Rows(entries) == ExpectedRows(nodes, start, amount, m)
    ensures forall j :: 0 <= j < |entries| && entries[j].Row? ==> 0 <= entries[j].key < amount
    ensures PreviewsPlaced(entries, preview)
    ensures preview.None? ==> entries == ExpectedRows(nodes, start, amount, m) && m == Min(|nodes|, amount)
  {
    entries := [];
    m := 0;
    var chosenMeasured := false;
    var key := start % amount;
    while m < |nodes| && |entries| < amount
      invariant m <= |nodes| && m <= |entries| && m <= amount && |entries| <= amount + 1
      invariant key == (start + m) % amount
      invariant chosenMeasured <==> exists u :: 0 <= u < m && !nodes[u].isRoot
      invariant Rows(entries) == ExpectedRows(nodes, start, amount, m)
      invariant PreviewsPlaced(entries, preview)
      decreases |nodes| - m
    {
      var node := nodes[m];
      var row := Row(key, node, !node.isRoot && !chosenMeasured);
      assert row == Row((start + m) % amount, nodes[m], IsFirstNonRoot(nodes, m));
      var added := if preview.Some? && preview.value.target == node.uri then
                     (if preview.value.above then [PreviewRow, row] else [row, PreviewRow])
                   else [row];
      AddRow(entries, added, row, nodes, start, amount, m, preview);
      entries := entries + added;
      chosenMeasured := chosenMeasured || !node.isRoot;
      m := m + 1;
      key := NextKey(key, start + m - 1, amount);
    }
    RowsOfEntries(entries, nodes, start, amount, m, preview);
  }

  /** What the rows of the loop's result say about all of it: the keys are
      in range, and without a preview there is nothing but rows. */
  lemma RowsOfEntries(entries: seq<Entry>, nodes: seq<Node>, start: int, amount: int, m: nat, preview: Option<Preview>)
    requires amount > 0 && m <= |nodes|
    requires Rows(entries) == ExpectedRows(nodes, start, amount, m)
    requires PreviewsPlaced(entries, preview)
    ensures forall j :: 0 <= j < |entries| && entries[j].Row? ==> 0 <= entries[j].key < amount
    ensures preview.None? ==> entries == ExpectedRows(nodes, start, amount, m)
  {
    forall j | 0 <= j < |entries| && entries[j].Row?
      ensures 0 <= entries[j].key < amount
    {
      assert entries[j] in Rows(entries);
    }
    if preview.None? {
      FilterAll(entries, IsRow());
    }
  }

  function Min(a: int, b: int): int {
    if a < b then a else b
  }

  /** `(key + 1) % amountToRender` keeps the key the row number modulo
      `amountToRender`. */
  function NextKey(key: int, row: int, amount: int): (k: int)
    requires amount > 0 && key == row % amount
    ensures k == (row + 1) % amount
  {
    var q := row / amount;
    if key + 1 < amount then
      ModUnique(row + 1, amount, q, key + 1);
      key + 1
    else
      assert (q + 1) * amount == q * amount + amount;
      ModUnique(row + 1, amount, q + 1, 0);
      0
  }

  /** Division with a positive divisor has one quotient and remainder. */
  lemma ModUnique(a: int, b: int, q: int, r: int)
    requires b > 0 && 0 <= r < b && a == q * b + r
    ensures a % b == r && a / b == q
  {
    var q' := a / b;
    var r' := a % b;
    assert a == q' * b + r';
    if q' > q {
      MulLe(q + 1, q', b);
    } else if q' < q {
      MulLe(q' + 1, q, b);
    }
  }

  lemma MulLe(x: int, y: int, b: int)
    requires x <= y && b > 0
    ensures x * b <= y * b
  {
    assert y * b == x * b + (y - x) * b;
  }

  lemma ExpectedRowsStep(nodes: seq<Node>, start: int, amount: int, m: nat)
    requires amount > 0 && m < |nodes|
    ensures ExpectedRows(nodes, start, amount, m + 1) ==
            ExpectedRows(nodes, start, amount, m) + [Row((start + m) % amount, nodes[m], IsFirstNonRoot(nodes, m))]
  {
    var a := ExpectedRows(nodes, start, amount, m + 1);
    var b := ExpectedRows(nodes, start, amount, m) + [Row((start + m) % amount, nodes[m], IsFirstNonRoot(nodes, m))];
    assert |a| == |b|;
    forall t | 0 <= t < |a|
      ensures a[t] == b[t]
    {
      if t < m {
        assert b[t] == ExpectedRows(nodes, start, amount, m)[t];
      }
    }
  }

  /** One step of the loop keeps the rows and the previews in place. */
  lemma AddRow(entries: seq<Entry>, added: seq<Entry>, row: Entry, nodes: seq<Node>, start: int, amount: int, m: nat, preview: Option<Preview>)
    requires amount > 0 && m < |nodes| && row.Row? && row == Row((start + m) % amount, nodes[m], IsFirstNonRoot(nodes, m))
    requires Rows(entries) == ExpectedRows(nodes, start, amount, m)
    requires PreviewsPlaced(entries, preview)
    requires added == if preview.Some? && preview.value.target == row.node.uri then
                        (if preview.value.above then [PreviewRow, row] else [row, PreviewRow])
                      else [row]
    ensures Rows(entries + added) == ExpectedRows(nodes, start, amount, m + 1)
    ensures PreviewsPlaced(entries + added, preview)
  {
    FilterAppend(entries, added, IsRow());
    assert Rows(added) == [row];
    ExpectedRowsStep(nodes, start, amount, m);
    AddedPreviewsPlaced(entries, added, row, preview);
  }

  /** A row, with its preview beside it when it is the target, keeps the
      previews placed. */
  lemma AddedPreviewsPlaced(entries: seq<Entry>, added: seq<Entry>, row: Entry, preview: Option<Preview>)
    requires row.Row? && PreviewsPlaced(entries, preview)
    requires added == if preview.Some? && preview.value.target == row.node.uri then
                        (if preview.value.above then [PreviewRow, row] else [row, PreviewRow])
                      else [row]
    ensures PreviewsPlaced(entries + added, preview)
  {
    var all := entries + added;
    forall j | 0 <= j < |all| && all[j].PreviewRow?
      ensures preview.Some? && PreviewBeside(all, j, preview.value)
    {
      if j < |entries| {
        assert entries[j].PreviewRow?;
        assert PreviewBeside(entries, j, preview.value);
      }
    }
    forall j | 0 <= j < |all| && all[j].Row? && preview.Some? && all[j].node.uri == preview.value.target
      ensures RowBeside(all, j, preview.value)
    {
      if j < |entries| {
        assert entries[j].Row?;
        assert RowBeside(entries, j, preview.value);
      }
    }
  }

  /** The rows among `entries` show the listing from row `first` on, keyed by
      their row number modulo `amount`, and there are at most `amount` of
      them. */
  predicate ShowsListing(entries: seq<Entry>, listing: seq<Node>, first: int, amount: int)
    requires amount > 0 && first >= 0
  {
    var rows := Rows(entries);
    |rows| <= amount && first + |rows| <= |listing|
    && forall t :: 0 <= t < |rows| ==>
         rows[t].Row? && rows[t].node == listing[first + t] && rows[t].key == (first + t) % amount
  }

  /** The loop started on row `first` with key `first % amount` shows the
      listing from there. */
  lemma LoopShowsListing(entries: seq<Entry>, listing: seq<Node>, first: int, amount: int, m: nat)
    requires amount > 0 && 0 <= first <= |listing| && m <= |listing| - first && m <= amount
    requires Rows(entries) == ExpectedRows(listing[first..], first % amount, amount, m)
    ensures ShowsListing(entries, listing, first, amount)
  {
    var rows := Rows(entries);
    forall t | 0 <= t < |rows|
      ensures rows[t].Row? && rows[t].node == listing[first + t] && rows[t].key == (first + t) % amount
    {
      KeyFromFirst(first, amount, t);
    }
  }

  /** `_renderChildren`: nothing but the project selection for an empty tree;
      otherwise the rows from `firstToRender` on, between placeholders for the
      rows above and below. The counts are what the nodes compute. */
  method RenderChildren(roots: seq<Node>, status: Option<ReorderStatus>, scrollTop: int,
                        containerHeight: int, elementHeight: int) returns (v: View)
    requires AllWf(roots) && containerHeight >= 0 && elementHeight > 0
    ensures v.ProjectSelection? <==> CountShownNodes(roots) == 0
    ensures v.Scrolled? ==>
              var w := WindowFor(CountShownNodes(roots), scrollTop, containerHeight, elementHeight);
              v.topPlaceholderSize == w.firstToRender * elementHeight
              && v.bottomPlaceholderCount == CountShownNodes(roots) - (w.firstToRender + |v.entries|)
              && ShowsListing(v.entries, ListedAll(roots), w.firstToRender, w.amountToRender)
              && PreviewsPlaced(v.entries, PreviewFor(status))
    // without a preview every row up to the window's end is rendered
    ensures v.Scrolled? && PreviewFor(status).None? ==>
              var w := WindowFor(CountShownNodes(roots), scrollTop, containerHeight, elementHeight);
              |v.entries| == Min(CountShownNodes(roots) - w.firstToRender, w.amountToRender)
              && v.bottomPlaceholderCount >= 0
  {
    var count := CountShownNodes(roots);
    if count == 0 {
      return ProjectSelection;
    }
    var w := WindowFor(count, scrollTop, containerHeight, elementHeight);
    AllListedLength(roots);
    FindFirstIsListed(roots, w.firstToRender);
    var listing := ListedAll(roots);
    var start := FindFirstNodeToRender(roots, w.firstToRender);
    // `findNext` walks the listing from the node found
    var nodes := if start.Some? then listing[w.firstToRender..] else [];
    assert nodes == listing[w.firstToRender..];
    var entries, m := RenderEntries(nodes, w.firstToRender % w.amountToRender, w.amountToRender, PreviewFor(status));
    LoopShowsListing(entries, listing, w.firstToRender, w.amountToRender, m);
    v := Scrolled(w.firstToRender * elementHeight, entries, count - (w.firstToRender + |entries|));
  }

  /** Starting the keys at `first % amount` numbers row `t` as
      `(first + t) % amount`. */
  lemma KeyFromFirst(first: int, amount: int, t: int)
    requires amount > 0
    ensures (first % amount + t) % amount == (first + t) % amount
  {
    var q := first / amount;
    var a := first % amount + t;
    var r := a % amount;
    var d := a / amount;
    assert first == q * amount + first % amount;
    assert (d + q) * amount == d * amount + q * amount;
    ModUnique(first + t, amount, d + q, r);
  }
}
