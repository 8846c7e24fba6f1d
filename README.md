# Getting to Philosophy, modelled in Dafny

This project models `WikiPhilosophy`, a crawler that tests the "Getting to
Philosophy" conjecture. It starts from an encyclopedia article and keeps
following the first valid link in the article body. It stops when the link
is the Philosophy article, when a page has no valid link, or when it would
revisit a page.

The model has four parts, one Dafny module each:

- `Dom` (`dom.dfy`) holds the parsed page. A `Node` is a text node, an
  element, or another node kind. An element has a tag, an absolute target
  (`href`) and its children. A queued node is an `Item`. It carries the tags
  of all its ancestors, up to the document root, so the italics check can
  walk upwards without back references.
- `Traversal` (`traversal.dfy`) models the node iterator `WPIterator` and
  its wrapper `WPIterable`. The iterator pushes the root into an
  `ArrayDeque`. Each step pops the head and appends the head's children at
  the tail. So the deque behaves as a FIFO queue, and the nodes come out in
  breadth-first (level) order. `Bfs` specifies that order. It is proved
  equal to level order (`LevelOrder`). It is also proved to be a
  permutation of document pre-order (`Dfs`), so every node is yielded
  exactly once.
- `LinkSelector` (`link_selector.dfy`) models `getFirstValidLink` and the
  helpers it calls:
  - the parenthesis counter `countParenthesesOpen`;
  - the checks `isLink`, `isItalic`, `isExternalLink` and `isValidLink`.

  `Select` is the selector's scan over the iteration order. Its counter is
  never reset or clamped. `SelectorExamples` (`selector_examples.dfy`) works
  through concrete paragraphs.
- `CrawlLoop` (`crawl_loop.dfy`) models `getNextPage`, which scans
  paragraphs from the front of a list, and `testConjecture`, the crawl loop
  over a visited set. The fetcher is a map from page address to the page's
  paragraphs. An address missing from the map is a failed fetch.

Three points where the code's behaviour is narrower than the conjecture's
wording, and the model follows the code:

- **Visit order.** The conjecture asks for the first link in reading
  order, but the code walks each paragraph breadth-first.
  `ShallowerLinkWins` and `PreOrderWouldPickDeeperLink` show a paragraph
  where the two orders pick different links.
- **Italics walk.** `e.parent()` runs up to the document root, so an
  `Item`'s ancestors include the paragraph's own ancestors, and an `i`
  element around the whole paragraph rejects every link in it.
- **External links.** The code only tests whether the target contains the
  substring `wikipedia.org`; it does not compare hosts.

## Model

| member | source | states |
|---|---|---|
| `Traversal.WPIterable.constructor` | javacs-lab05/src/com/flatironschool/javacs/WikiPhilosophy.java:23-25 | the wrapper remembers the root it was given |
| `Traversal.WPIterable.Iterator` | javacs-lab05/src/com/flatironschool/javacs/WikiPhilosophy.java:27-29 | returns a fresh iterator whose remaining sequence is the whole breadth-first order of the root |
| `Traversal.WPIterator.constructor` | javacs-lab05/src/com/flatironschool/javacs/WikiPhilosophy.java:35-37 | the deque holds only the root, so the iterator has the root's full breadth-first order left to yield |
| `Traversal.WPIterator.HasNext` | javacs-lab05/src/com/flatironschool/javacs/WikiPhilosophy.java:39-41 | true exactly when the deque is non-empty, which is exactly when nodes remain to be yielded |
| `Traversal.WPIterator.Next` | javacs-lab05/src/com/flatironschool/javacs/WikiPhilosophy.java:43-47 | returns the first remaining node and leaves the rest of the order; the deque loses its head and gains the head's children at the tail |
| `Traversal.BfsAppend` | javacs-lab05/src/com/flatironschool/javacs/WikiPhilosophy.java:44-45 | nodes already in the deque come out first, in deque order, and their children are queued behind everything else |
| `Traversal.BfsUnroll` | javacs-lab05/src/com/flatironschool/javacs/WikiPhilosophy.java:44-45 | a whole deque is yielded, in order, before any of the children it queued |
| `Traversal.BfsIsLevelOrder` | javacs-lab05/src/com/flatironschool/javacs/WikiPhilosophy.java:44-45 | the iterator's order is level order: one whole level of the tree after another, siblings left to right |
| `Traversal.BfsPermutesDfs` | javacs-lab05/src/com/flatironschool/javacs/WikiPhilosophy.java:44-45 | the iterator yields the same nodes as document pre-order, each as often |
| `Traversal.BfsVisitsEveryNodeOnce` | javacs-lab05/src/com/flatironschool/javacs/WikiPhilosophy.java:35-47 | iterating a tree yields the root first, then every node exactly once (as many nodes as the tree has, the same multiset as pre-order), in level order |
| `LinkSelector.CountParenthesesOpen` | javacs-lab05/src/com/flatironschool/javacs/WikiPhilosophy.java:133-145 | the loop returns the net parenthesis count of the text: the number of `(` minus the number of `)` |
| `LinkSelector.ParenBalanceCounts` | javacs-lab05/src/com/flatironschool/javacs/WikiPhilosophy.java:133-145 | the counter equals the number of `(` minus the number of `)` in the text |
| `LinkSelector.ParenBalanceAppend` | javacs-lab05/src/com/flatironschool/javacs/WikiPhilosophy.java:133-145 | counting two texts one after the other adds their counts |
| `LinkSelector.ParenBalanceBounded` | javacs-lab05/src/com/flatironschool/javacs/WikiPhilosophy.java:133-145 | the count's absolute value is at most the text's length |
| `LinkSelector.ParenBalanceNoParens` | javacs-lab05/src/com/flatironschool/javacs/WikiPhilosophy.java:133-145 | text without parentheses counts 0 |
| `LinkSelector.ContainsIffOccurs` | javacs-lab05/src/com/flatironschool/javacs/WikiPhilosophy.java:179 | the substring test used on link targets holds exactly when the substring occurs at some index |
| `LinkSelector.IsItalic` | javacs-lab05/src/com/flatironschool/javacs/WikiPhilosophy.java:168-176 | the upward walk returns true exactly when the element or some ancestor up to the document root has tag `i` |
| `LinkSelector.IsValidLink` | javacs-lab05/src/com/flatironschool/javacs/WikiPhilosophy.java:147-180 | runs `isLink` (`IsLink`: tag `a`), `isItalic` (`Italic`: some tag on the chain to the root is `i`) and `isExternalLink` (`IsExternalLink`: the target lacks `wikipedia.org`) in that order; valid exactly when all three pass, and the verdict names the first one that fails |
| `LinkSelector.SelectAppend` | javacs-lab05/src/com/flatironschool/javacs/WikiPhilosophy.java:119-128 | the scan reaches a later run of nodes only if the earlier run selects nothing, and carries the earlier run's count into it |
| `LinkSelector.SelectPassesOver` | javacs-lab05/src/com/flatironschool/javacs/WikiPhilosophy.java:125 | elements that fail the checks neither stop the scan nor change the count |
| `LinkSelector.SelectIsFirstCandidate` | javacs-lab05/src/com/flatironschool/javacs/WikiPhilosophy.java:116-131 | the scan returns the target of the first element in iteration order that is valid while the text before it has a net count of exactly 0, and returns nothing exactly when no element qualifies |
| `LinkSelector.SelectedLinkIsValid` | javacs-lab05/src/com/flatironschool/javacs/WikiPhilosophy.java:125-126 | a selected target belongs to an `a` element of the paragraph that has no `i` ancestor, and the target contains `wikipedia.org` |
| `LinkSelector.NoSelectionWhileUnbalanced` | javacs-lab05/src/com/flatironschool/javacs/WikiPhilosophy.java:117-125 | the counter is never reset or clamped: as long as the running count over the text met so far stays off 0, at every point of the scan, no element is selected, whatever that text contains |
| `LinkSelector.GetFirstValidLink` | javacs-lab05/src/com/flatironschool/javacs/WikiPhilosophy.java:116-131 | the loop over the iterator returns exactly what the scan specification selects for the paragraph |
| `SelectorExamples.ParenthesizedLinkSkipped` | javacs-lab05/src/com/flatironschool/javacs/WikiPhilosophy.java:119-126 | in `See (also <a>Foo</a>) and <a>Bar</a>` the selector picks Bar |
| `SelectorExamples.ItalicLinkSkipped` | javacs-lab05/src/com/flatironschool/javacs/WikiPhilosophy.java:168-176 | a link under `<i>` is skipped in favour of a later one on the same level |
| `SelectorExamples.ExternalLinkSkipped` | javacs-lab05/src/com/flatironschool/javacs/WikiPhilosophy.java:178-180 | a first link whose target lacks `wikipedia.org` is skipped in favour of the next link |
| `SelectorExamples.ElsewhereIsExternal` | javacs-lab05/src/com/flatironschool/javacs/WikiPhilosophy.java:178-180 | an address on another host does not contain `wikipedia.org` |
| `SelectorExamples.ShallowerLinkWins` | javacs-lab05/src/com/flatironschool/javacs/WikiPhilosophy.java:44-45 | in `<b><a>Foo</a></b><a>Bar</a>` the selector picks Bar, the link one level nearer the paragraph, although Foo comes first in the document |
| `SelectorExamples.PreOrderWouldPickDeeperLink` | javacs-lab05/src/com/flatironschool/javacs/WikiPhilosophy.java:44-45 | the same scan over document pre-order would pick Foo, so the visit order changes the answer |
| `SelectorExamples.StrayClosingParenthesisBlocks` | javacs-lab05/src/com/flatironschool/javacs/WikiPhilosophy.java:122-125 | after text `x) ` the counter is negative and no later link of the paragraph is picked |
| `SelectorExamples.CounterIsNotANestingCheck` | javacs-lab05/src/com/flatironschool/javacs/WikiPhilosophy.java:122-125 | after text `x) ( ` the counter is back at 0 and the next link is picked, although it follows an unclosed `(` |
| `CrawlLoop.NextPageNone` | javacs-lab05/src/com/flatironschool/javacs/WikiPhilosophy.java:104-114 | the paragraph scan yields nothing exactly when no paragraph yields a link, and then it has removed every paragraph |
| `CrawlLoop.NextPageIsFirstHit` | javacs-lab05/src/com/flatironschool/javacs/WikiPhilosophy.java:104-114 | otherwise it yields the link of the first paragraph that has one, and it has removed exactly the paragraphs up to and including that one |
| `CrawlLoop.GetNextPage` | javacs-lab05/src/com/flatironschool/javacs/WikiPhilosophy.java:104-114 | returns the scan's link and leaves in the list exactly the paragraphs after those it examined |
| `CrawlLoop.CrawlFetchesOnce` | javacs-lab05/src/com/flatironschool/javacs/WikiPhilosophy.java:85-87 | no page is fetched twice or after being visited, and a crawl fetches at most one page more than the fetcher knows |
| `CrawlLoop.CrawlFollowsLinks` | javacs-lab05/src/com/flatironschool/javacs/WikiPhilosophy.java:86-98 | the first page fetched is the start page, each later page fetched is the previous page's selected link, and the Philosophy address is never fetched after the start page, since a link to it ends the crawl |
| `CrawlLoop.CrawlEndsAtLastPage` | javacs-lab05/src/com/flatironschool/javacs/WikiPhilosophy.java:86-101 | a crawl fetches at least one page, and the last page fetched decides the outcome: a failed fetch when the fetcher lacks it, no link when it has none, success when its link is the Philosophy address, and otherwise a revisit of a page visited before the crawl or fetched during it |
| `CrawlLoop.TwoPageLoop` | javacs-lab05/src/com/flatironschool/javacs/WikiPhilosophy.java:86-101 | A → B → A ends in a revisit after fetching exactly A and B |
| `CrawlLoop.DeadEnd` | javacs-lab05/src/com/flatironschool/javacs/WikiPhilosophy.java:90-93 | a page none of whose paragraphs has a link ends the crawl after that one fetch |
| `CrawlLoop.OneHop` | javacs-lab05/src/com/flatironschool/javacs/WikiPhilosophy.java:94-96 | a page whose link is the Philosophy address (`PHILOSOPHY_URL`, declared at line 52 with the same string) succeeds after one fetch, without fetching Philosophy itself |
| `CrawlLoop.TestConjecture` | javacs-lab05/src/com/flatironschool/javacs/WikiPhilosophy.java:84-102 | the loop's outcome and its list of fetched pages are those of the crawl specification, and no page appears twice in that list |

## Left out

- `main`, `p` and every console print are left out. They are I/O and diagnostics only.
- `LinkSelector.IsValidLink`: the verdict that names the failed check is a ghost result. The source only prints it.
- The fetcher (`WikiFetcher.fetchWikipedia`, network access and HTML parsing) is not part of this model. It is a map from page address to the page's paragraphs. A failed fetch, which the source raises as an `IOException`, is the outcome `FetchFailed`.
- `CrawlLoop.TestConjecture`: the source returns a boolean or throws. The model returns an `Outcome` instead: `Found` is true, `NoLink` and `Revisit` are false, and `FetchFailed` is the exception.
- `CrawlLoop.TestConjecture`: the loop head's `url != null` test is not modelled. The start address is a string, and a followed link is never null.
- Resolving `abs:href` against the page's base address is jsoup's job. Every element carries its already-absolute target, and a missing attribute reads as "".
- `HashSet` hashing is not modelled. The visited set is a mathematical set.
- The class comment promises to ignore links to the current page and red links. The code does neither, so the model does not either.
- `LinkSelector.CountParenthesesOpen`: the source's counter is a 32-bit `int`. The model's counter is unbounded, because overflow would need more than two billion parentheses in one paragraph.
- jsoup's whitespace normalisation of text nodes is not modelled. It does not change the parenthesis count.
- `Traversal.WPIterator.Next` requires a non-empty deque. The source would throw `NoSuchElementException`, but its only caller asks `hasNext` first.
