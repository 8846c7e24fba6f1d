/** Link selection inside one paragraph: walk the paragraph's nodes in the
    iterator's order, keep a running count of net open parentheses over the
    text seen so far, and take the first element met while that count is
    exactly zero which is a link, not under italics and pointing into the
    encyclopedia. */
module LinkSelector {
  import opened Dom
  import opened Traversal

  /** The substring a link target must contain not to count as external. */
  const WIKI_HOST: string := "wikipedia.org"

  // ---------------------------------------------------------------------
  // The parenthesis counter

  /** What one character adds to the count of open parentheses. */
  function CharBalance(c: char): int
  {
    if c == '(' then 1 else if c == ')' then -1 else 0
  }

  /** Net count of open parentheses after reading `s` left to right:
      never clamped, so it may go negative. */
  function ParenBalance(s: string): int
  {
    if s == [] then 0 else ParenBalance(s[..|s| - 1]) + CharBalance(s[|s| - 1])
  }

  /** The counter, as a loop over the characters of a text node. */
  method CountParenthesesOpen(text: string) returns (count: int)
    ensures count == ParenBalance(text)
    ensures count == multiset(text)['('] as int - multiset(text)[')'] as int
  {
    count := 0;
    var i := 0;
    while i < |text|
      invariant 0 <= i <= |text|
      invariant count == ParenBalance(text[..i])
    {
      assert text[..i + 1][..i] == text[..i];
      var c := text[i];
      if c == '(' {
        count := count + 1;
      } else if c == ')' {
        count := count - 1;
      }
      i := i + 1;
    }
    assert text[..i] == text;
    ParenBalanceCounts(text);
  }

  /** The counter is the number of '(' minus the number of ')'. */
  lemma {:induction false} ParenBalanceCounts(s: string)
    ensures ParenBalance(s) == multiset(s)['('] as int - multiset(s)[')'] as int
  {
    if s != [] {
      var init, c := s[..|s| - 1], s[|s| - 1];
      assert init + [c] == s;
      ParenBalanceCounts(init);
      assert multiset(s) == multiset(init) + multiset{c};
    }
  }

  /** Counting over two texts one after the other adds up. */
  lemma {:induction false} ParenBalanceAppend(a: string, b: string)
    ensures ParenBalance(a + b) == ParenBalance(a) + ParenBalance(b)
    decreases |b|
  {
    if b == [] {
      assert a + b == a;
    } else {
      var init, c := b[..|b| - 1], b[|b| - 1];
      assert (a + b)[..|a + b| - 1] == a + init;
      assert (a + b)[|a + b| - 1] == c;
      ParenBalanceAppend(a, init);
    }
  }

  /** Each character moves the counter by at most one. */
  lemma {:induction false} ParenBalanceBounded(s: string)
    ensures -|s| <= ParenBalance(s) <= |s|
  {
    if s != [] {
      ParenBalanceBounded(s[..|s| - 1]);
    }
  }

  /** Text without parentheses leaves the counter where it was. */
  lemma ParenBalanceNoParens(s: string)
    requires '(' !in s && ')' !in s
    ensures ParenBalance(s) == 0
  {
    ParenBalanceCounts(s);
  }

  // ---------------------------------------------------------------------
  // Substring search on link targets

  /** `sub` occurs in `s` starting at index `i`. */
  predicate OccursAt(s: string, sub: string, i: int)
  {
    0 <= i && i + |sub| <= |s| && s[i..i + |sub|] == sub
  }

  /** Whether `sub` occurs anywhere in `s`, tried at each start in turn. */
  function Contains(s: string, sub: string): bool
    decreases |s|
  {
    if |s| < |sub| then false
    else s[..|sub|] == sub || Contains(s[1..], sub)
  }

  lemma {:induction false} ContainsIffOccurs(s: string, sub: string)
    ensures Contains(s, sub) <==> exists i :: OccursAt(s, sub, i)
    decreases |s|
  {
    if |s| >= |sub| {
      if s[..|sub|] == sub {
        assert OccursAt(s, sub, 0);
      } else {
        ContainsIffOccurs(s[1..], sub);
        if Contains(s, sub) {
          var i :| OccursAt(s[1..], sub, i);
          assert s[1..][i..i + |sub|] == s[i + 1..i + 1 + |sub|];
          assert OccursAt(s, sub, i + 1);
        } else {
          forall i | 0 < i && OccursAt(s, sub, i)
            ensures OccursAt(s[1..], sub, i - 1)
          {
            assert s[1..][i - 1..i - 1 + |sub|] == s[i..i + |sub|];
          }
        }
      }
    }
  }

  // ---------------------------------------------------------------------
  // The validity checks on a candidate element

  predicate IsLink(e: Item)
    requires e.node.Element?
  {
    e.node.tag == "a"
  }

  /** The element or one of its ancestors is an italics element. */
  predicate Italic(e: Item)
    requires e.node.Element?
  {
    "i" in TagChain(e)
  }

  predicate IsExternalLink(e: Item)
    requires e.node.Element?
  {
    !Contains(e.node.href, WIKI_HOST)
  }

  predicate ValidLink(e: Item)
    requires e.node.Element?
  {
    IsLink(e) && !Italic(e) && !IsExternalLink(e)
  }

  /** Which check rejected a candidate, the checks being run in order. */
  datatype Verdict = NotLink | Italicized | External | Accepted

  /** Walks from the element up through its parents, looking for `i`. */
  method IsItalic(e: Item) returns (italic: bool)
    requires e.node.Element?
    ensures italic <==> Italic(e)
    ensures italic <==> exists k :: 0 <= k < |TagChain(e)| && TagChain(e)[k] == "i"
  {
    var chain := TagChain(e);
    var k := 0;
    while k < |chain|
      invariant 0 <= k <= |chain|
      invariant forall j :: 0 <= j < k ==> chain[j] != "i"
    {
      if chain[k] == "i" {
        return true;
      }
      k := k + 1;
    }
    return false;
  }

  /** Runs the three checks in order and stops at the first that fails;
      `verdict` names that check (the diagnostic the source prints). */
  method IsValidLink(e: Item) returns (valid: bool, ghost verdict: Verdict)
    requires e.node.Element?
    ensures valid <==> ValidLink(e)
    ensures valid <==> e.node.tag == "a" && "i" !in TagChain(e) && Contains(e.node.href, WIKI_HOST)
    ensures verdict == NotLink <==> !IsLink(e)
    ensures verdict == Italicized <==> IsLink(e) && Italic(e)
    ensures verdict == External <==> IsLink(e) && !Italic(e) && IsExternalLink(e)
    ensures verdict == Accepted <==> valid
  {
    if !IsLink(e) {
      return false, NotLink;
    }
    var italic := IsItalic(e);
    if italic {
      return false, Italicized;
    }
    if IsExternalLink(e) {
      return false, External;
    }
    return true, Accepted;
  }

  // ---------------------------------------------------------------------
  // Selection over the iteration order

  /** What a node adds to the counter: text is counted, nothing else is. */
  function NodeBalance(n: Node): int
  {
    if n.Text? then ParenBalance(n.text) else 0
  }

  /** The counter's total over the text nodes of `items`. */
  function TextBalance(items: seq<Item>): int
  {
    if items == [] then 0 else NodeBalance(items[0].node) + TextBalance(items[1..])
  }

  /** The scan of the selector over `items`, starting with counter `open`. */
  function Select(items: seq<Item>, open: int): Option<string>
  {
    if items == [] then None
    else
      var e := items[0];
      var open' := open + NodeBalance(e.node);
      if e.node.Element? && open' == 0 && ValidLink(e) then Some(e.node.href)
      else Select(items[1..], open')
  }

  /** One step of the scan over a run whose first item is `x`. */
  lemma SelectCons(x: Item, rest: seq<Item>, open: int)
    ensures Select([x] + rest, open) ==
            if x.node.Element? && open + NodeBalance(x.node) == 0 && ValidLink(x) then Some(x.node.href)
            else Select(rest, open + NodeBalance(x.node))
  {
    HeadTailAppend([x], rest);
  }

  /** The scan after one item: it stops at `x` when `x` qualifies with the
      counter moved to `after`, and otherwise goes on with the rest. */
  lemma ScanStep(x: Item, rest: seq<Item>, before: int, after: int, result: Option<string>)
    requires Select([x] + rest, before) == result
    requires after == before + NodeBalance(x.node)
    ensures x.node.Element? && after == 0 && ValidLink(x) ==> result == Some(x.node.href)
    ensures !(x.node.Element? && after == 0 && ValidLink(x)) ==> Select(rest, after) == result
  {
    SelectCons(x, rest, before);
  }

  /** What the selector returns for a paragraph. */
  function FirstValidLink(paragraph: Item): Option<string>
  {
    Select(Bfs([paragraph]), 0)
  }

  /** The `k`-th item qualifies: an element passing the checks, met while
      the counter started at `open` plus the text before it is exactly 0. */
  predicate Candidate(items: seq<Item>, open: int, k: int)
  {
    0 <= k < |items| && items[k].node.Element? &&
    open + TextBalance(items[..k]) == 0 && ValidLink(items[k])
  }

  lemma CandidateShift(items: seq<Item>, open: int, k: int)
    requires 1 <= k < |items|
    ensures Candidate(items, open, k) <==>
            Candidate(items[1..], open + NodeBalance(items[0].node), k - 1)
  {
    assert items[..k][0] == items[0];
    assert items[..k][1..] == items[1..][..k - 1];
  }

  /** The scan returns the target of the first qualifying item, and nothing
      exactly when no item qualifies. */
  lemma {:induction false} SelectIsFirstCandidate(items: seq<Item>, open: int)
    ensures Select(items, open).None? <==> forall k :: 0 <= k < |items| ==> !Candidate(items, open, k)
    ensures Select(items, open).Some? ==>
              exists k :: Candidate(items, open, k) && Select(items, open).value == items[k].node.href &&
                          forall j :: 0 <= j < k ==> !Candidate(items, open, j)
  {
    if items != [] {
      var e, open' := items[0], open + NodeBalance(items[0].node);
      assert items[..0] == [];
      if e.node.Element? && open' == 0 && ValidLink(e) {
        assert Candidate(items, open, 0);
      } else {
        assert !Candidate(items, open, 0);
        SelectIsFirstCandidate(items[1..], open');
        forall k | 1 <= k < |items|
          ensures Candidate(items, open, k) <==> Candidate(items[1..], open', k - 1)
        {
          CandidateShift(items, open, k);
        }
        if Select(items, open).Some? {
          var k' :| Candidate(items[1..], open', k') && Select(items[1..], open').value == items[1..][k'].node.href &&
                    forall j :: 0 <= j < k' ==> !Candidate(items[1..], open', j);
          assert Candidate(items, open, k' + 1);
        } else {
          forall k | 0 <= k < |items| ensures !Candidate(items, open, k) {
            if k > 0 {
              assert !Candidate(items[1..], open', k - 1);
            }
          }
        }
      }
    }
  }

  /** Scanning two runs of items one after the other: the second is only
      reached when the first yields nothing, with the counter the first left. */
  lemma {:induction false} SelectAppend(a: seq<Item>, b: seq<Item>, open: int)
    ensures Select(a + b, open) ==
            if Select(a, open).Some? then Select(a, open) else Select(b, open + TextBalance(a))
  {
    if a == [] {
      assert a + b == b;
    } else {
      HeadTailAppend(a, b);
      SelectAppend(a[1..], b, open + NodeBalance(a[0].node));
    }
  }

  /** Elements that fail the checks neither stop the scan nor move the
      counter. */
  lemma {:induction false} SelectPassesOver(a: seq<Item>, b: seq<Item>, open: int)
    requires forall k :: 0 <= k < |a| ==> a[k].node.Element? && !ValidLink(a[k])
    ensures Select(a + b, open) == Select(b, open)
  {
    if a == [] {
      assert a + b == b;
    } else {
      HeadTailAppend(a, b);
      assert a[0].node.Element? && !ValidLink(a[0]);
      assert NodeBalance(a[0].node) == 0;
      SelectPassesOver(a[1..], b, open);
    }
  }

  /** A selected target is that of an `a` element under no italics whose
      target contains the encyclopedia's host. */
  lemma SelectedLinkIsValid(paragraph: Item)
    ensures FirstValidLink(paragraph).Some? ==>
              exists e :: e in Bfs([paragraph]) && e.node.Element? && e.node.tag == "a" &&
                          "i" !in TagChain(e) && Contains(e.node.href, WIKI_HOST) &&
                          e.node.href == FirstValidLink(paragraph).value
  {
    var items := Bfs([paragraph]);
    SelectIsFirstCandidate(items, 0);
    if FirstValidLink(paragraph).Some? {
      var k :| Candidate(items, 0, k) && FirstValidLink(paragraph).value == items[k].node.href;
      assert items[k] in items;
    }
  }

  /** The counter is never reset: once it is off zero (either way), no
      element qualifies until later text brings it back. */
  lemma NoSelectionWhileUnbalanced(items: seq<Item>, open: int)
    requires forall k :: 0 <= k <= |items| ==> open + TextBalance(items[..k]) != 0
    ensures Select(items, open) == None
  {
    SelectIsFirstCandidate(items, open);
  }

  /** The selector: iterate the paragraph, count parentheses in text nodes,
      and return the target of the first element that qualifies. */
  method GetFirstValidLink(paragraph: Item) returns (link: Option<string>)
    ensures link == FirstValidLink(paragraph)
  {
    var numParenthesesOpen := 0;
    var iterable := new WPIterable(paragraph);
    var iter := iterable.Iterator();
    var more := iter.HasNext();
    while more
      invariant fresh(iter)
      invariant more <==> iter.Remaining() != []
      invariant Select(iter.Remaining(), numParenthesesOpen) == FirstValidLink(paragraph)
      decreases |iter.Remaining()|
    {
      ghost var before := numParenthesesOpen;
      var node := iter.Next();
      ghost var rest := iter.Remaining();
      if node.node.Text? {
        var n := CountParenthesesOpen(node.node.text);
        numParenthesesOpen := numParenthesesOpen + n;
      }
      ScanStep(node, rest, before, numParenthesesOpen, FirstValidLink(paragraph));
      if node.node.Element? && numParenthesesOpen == 0 {
        var valid, _ := IsValidLink(node);
        if valid {
          return Some(node.node.href);
        }
      }
      more := iter.HasNext();
    }
    return None;
  }
}
