/** Worked paragraphs for the link selector, as a parser would build them
    for a paragraph sitting directly in the document body. */
module SelectorExamples {
  import opened Dom
  import opened Traversal
  import opened LinkSelector

  const FOO: string := "https://en." + WIKI_HOST + "/wiki/Foo"
  const BAR: string := "https://en." + WIKI_HOST + "/wiki/Bar"
  const BODY: seq<string> := ["body", "html", "#root"]

  function Anchor(href: string, caption: string): Node
  {
    Element("a", href, [Text(caption)])
  }

  function Paragraph(children: seq<Node>): Item
  {
    Item(Element("p", "", children), BODY)
  }

  /** Encyclopedia targets pass the host check. */
  lemma InternalTargets()
    ensures Contains(FOO, WIKI_HOST) && Contains(BAR, WIKI_HOST)
  {
    assert OccursAt(FOO, WIKI_HOST, 11) by { assert FOO[11..11 + |WIKI_HOST|] == WIKI_HOST; }
    assert OccursAt(BAR, WIKI_HOST, 11) by { assert BAR[11..11 + |WIKI_HOST|] == WIKI_HOST; }
    ContainsIffOccurs(FOO, WIKI_HOST);
    ContainsIffOccurs(BAR, WIKI_HOST);
  }

  /** The first three levels of a paragraph, in iteration order. */
  lemma BfsLevels(p: Item)
    ensures Bfs([p]) == [p] + ChildItems(p) + AllChildren(ChildItems(p)) +
                        Bfs(AllChildren(AllChildren(ChildItems(p))))
  {
    var kids := ChildItems(p);
    var grand := AllChildren(kids);
    BfsUnroll([p]);
    assert AllChildren([p]) == kids by {
      assert AllChildren([p]) == kids + AllChildren([]);
      assert kids + [] == kids;
    }
    BfsUnroll(kids);
    BfsUnroll(grand);
    AppendAssoc(kids, grand, Bfs(AllChildren(grand)));
    AppendAssoc([p], kids + grand, Bfs(AllChildren(grand)));
    AppendAssoc([p], kids, grand);
  }

  /** The selector's answer is decided within the first three levels of a
      paragraph whenever some item there qualifies. */
  lemma DecidedByLevels(p: Item)
    requires Select([p] + ChildItems(p) + AllChildren(ChildItems(p)), 0).Some?
    ensures FirstValidLink(p) == Select([p] + ChildItems(p) + AllChildren(ChildItems(p)), 0)
  {
    var front := [p] + ChildItems(p) + AllChildren(ChildItems(p));
    BfsLevels(p);
    SelectAppend(front, Bfs(AllChildren(AllChildren(ChildItems(p)))), 0);
  }

  /** The items of a paragraph's two children, in order. */
  lemma TwoChildren(a: Node, b: Node)
    ensures ChildItems(Paragraph([a, b])) == [Item(a, ["p"] + BODY), Item(b, ["p"] + BODY)]
  {
  }

  /** Bar, alone after elements that fail the checks, is chosen. */
  lemma BarAfterRejected(front: seq<Item>, anc: seq<string>)
    requires forall k :: 0 <= k < |front| ==> front[k].node.Element? && !ValidLink(front[k])
    requires "i" !in anc
    ensures Select(front + [Item(Anchor(BAR, "Bar"), anc)], 0) == Some(BAR)
  {
    var bar := Item(Anchor(BAR, "Bar"), anc);
    InternalTargets();
    assert TagChain(bar) == ["a"] + anc;
    assert ValidLink(bar);
    SelectPassesOver(front, [bar], 0);
  }

  /** The counts of the example texts. */
  lemma OpenAndClose()
    ensures ParenBalance("See (also ") == 1 && ParenBalance(") and ") == -1
  {
    assert "See (also " == "See " + "(" + "also ";
    ParenBalanceAppend("See " + "(", "also ");
    ParenBalanceAppend("See ", "(");
    ParenBalanceNoParens("See ");
    ParenBalanceNoParens("also ");
    assert ") and " == ")" + " and ";
    ParenBalanceAppend(")", " and ");
    ParenBalanceNoParens(" and ");
  }

  lemma StrayCount()
    ensures ParenBalance("x) ") == -1 && ParenBalance("x) ( ") == 0
  {
    assert "x) ( " == "x) " + "(" + " ";
    assert "x) " == "x" + ")" + " ";
    ParenBalanceAppend("x" + ")", " ");
    ParenBalanceAppend("x", ")");
    ParenBalanceAppend("x) " + "(", " ");
    ParenBalanceAppend("x) ", "(");
    ParenBalanceNoParens("x");
    ParenBalanceNoParens(" ");
  }

  /** `See (also <a>Foo</a>) and <a>Bar</a>`: Foo sits inside the open
      parenthesis, so Bar is chosen. */
  lemma ParenthesizedLinkSkipped()
    ensures FirstValidLink(Paragraph([Text("See (also "), Anchor(FOO, "Foo"), Text(") and "), Anchor(BAR, "Bar")]))
            == Some(BAR)
  {
    var p := Paragraph([Text("See (also "), Anchor(FOO, "Foo"), Text(") and "), Anchor(BAR, "Bar")]);
    var anc := ["p"] + BODY;
    var t1, foo, t2, bar := Item(Text("See (also "), anc), Item(Anchor(FOO, "Foo"), anc),
                            Item(Text(") and "), anc), Item(Anchor(BAR, "Bar"), anc);
    var kids := ChildItems(p);
    assert kids == [t1, foo, t2, bar];
    OpenAndClose();
    assert Select(kids, 0) == Some(BAR) by {
      assert kids == [t1] + ([foo] + ([t2] + ([] + [bar])));
      BarAfterRejected([], anc);
      SelectCons(t2, [bar], 1);
      SelectCons(foo, [t2, bar], 1);
      SelectCons(t1, [foo, t2, bar], 0);
    }
    assert Select([p] + kids, 0) == Some(BAR) by {
      SelectPassesOver([p], kids, 0);
    }
    SelectAppend([p] + kids, AllChildren(kids), 0);
    DecidedByLevels(p);
  }

  /** `<i><a>Foo</a></i><b><a>Bar</a></b>`: both links are met on the same
      level, and Foo, first, has an italics ancestor, so Bar is chosen. */
  lemma ItalicLinkSkipped()
    ensures FirstValidLink(Paragraph([Element("i", "", [Anchor(FOO, "Foo")]), Element("b", "", [Anchor(BAR, "Bar")])]))
            == Some(BAR)
  {
    var p := Paragraph([Element("i", "", [Anchor(FOO, "Foo")]), Element("b", "", [Anchor(BAR, "Bar")])]);
    var anc := ["p"] + BODY;
    var ki, kb := Item(Element("i", "", [Anchor(FOO, "Foo")]), anc), Item(Element("b", "", [Anchor(BAR, "Bar")]), anc);
    var foo, bar := Item(Anchor(FOO, "Foo"), ["i"] + anc), Item(Anchor(BAR, "Bar"), ["b"] + anc);
    TwoChildren(Element("i", "", [Anchor(FOO, "Foo")]), Element("b", "", [Anchor(BAR, "Bar")]));
    var kids := ChildItems(p);
    assert AllChildren(kids) == [foo, bar] by {
      assert ChildItems(ki) == [foo];
      assert ChildItems(kb) == [bar];
      assert kids[1..] == [kb];
      assert AllChildren([kb]) == [bar] + AllChildren([]);
    }
    assert Italic(foo) by {
      assert TagChain(foo)[1] == "i";
    }
    assert "i" !in ["b"] + anc;
    assert Select([p] + kids + AllChildren(kids), 0) == Some(BAR) by {
      assert [p] + kids + AllChildren(kids) == [p, ki, kb, foo] + [bar];
      BarAfterRejected([p, ki, kb, foo], ["b"] + anc);
    }
    DecidedByLevels(p);
  }

  /** A target in which the first character of the host never occurs
      cannot contain the host. */
  lemma MissingFirstCharacter(s: string, sub: string)
    requires sub != [] && sub[0] !in s
    ensures !Contains(s, sub)
  {
    ContainsIffOccurs(s, sub);
  }

  const ELSEWHERE: string := "https://example.org/Foo"

  lemma ElsewhereIsExternal()
    ensures !Contains(ELSEWHERE, WIKI_HOST)
  {
    assert WIKI_HOST[0] == 'w';
    MissingFirstCharacter(ELSEWHERE, WIKI_HOST);
  }

  /** `<a href=elsewhere>Foo</a> <a>Bar</a>`: the first link leaves the
      encyclopedia (as ELSEWHERE does), so Bar is chosen. */
  lemma ExternalLinkSkipped(elsewhere: string)
    requires !Contains(elsewhere, WIKI_HOST)
    ensures FirstValidLink(Paragraph([Anchor(elsewhere, "Foo"), Text(" "), Anchor(BAR, "Bar")])) == Some(BAR)
  {
    var p := Paragraph([Anchor(elsewhere, "Foo"), Text(" "), Anchor(BAR, "Bar")]);
    var anc := ["p"] + BODY;
    var ext, gap, bar := Item(Anchor(elsewhere, "Foo"), anc), Item(Text(" "), anc), Item(Anchor(BAR, "Bar"), anc);
    var kids := ChildItems(p);
    assert kids == [ext, gap, bar];
    assert Select(kids, 0) == Some(BAR) by {
      ParenBalanceNoParens(" ");
      assert kids == [ext] + ([gap] + ([] + [bar]));
      BarAfterRejected([], anc);
      SelectCons(gap, [bar], 0);
      SelectCons(ext, [gap, bar], 0);
    }
    assert Select([p] + kids, 0) == Some(BAR) by {
      SelectPassesOver([p], kids, 0);
    }
    SelectAppend([p] + kids, AllChildren(kids), 0);
    DecidedByLevels(p);
  }

  /** `<b><a>Foo</a></b><a>Bar</a>`: Foo comes first in the document, but
      the iterator reaches Bar a level earlier, so Bar is chosen. */
  lemma ShallowerLinkWins()
    ensures FirstValidLink(Paragraph([Element("b", "", [Anchor(FOO, "Foo")]), Anchor(BAR, "Bar")])) == Some(BAR)
  {
    var p := Paragraph([Element("b", "", [Anchor(FOO, "Foo")]), Anchor(BAR, "Bar")]);
    var anc := ["p"] + BODY;
    var kb := Item(Element("b", "", [Anchor(FOO, "Foo")]), anc);
    TwoChildren(Element("b", "", [Anchor(FOO, "Foo")]), Anchor(BAR, "Bar"));
    var kids := ChildItems(p);
    assert Select([p] + kids, 0) == Some(BAR) by {
      assert [p] + kids == [p, kb] + [Item(Anchor(BAR, "Bar"), anc)];
      BarAfterRejected([p, kb], anc);
    }
    SelectAppend([p] + kids, AllChildren(kids), 0);
    DecidedByLevels(p);
  }

  /** The same paragraph scanned in document pre-order would yield Foo. */
  lemma PreOrderWouldPickDeeperLink()
    ensures Select(Dfs([Paragraph([Element("b", "", [Anchor(FOO, "Foo")]), Anchor(BAR, "Bar")])]), 0) == Some(FOO)
  {
    var p := Paragraph([Element("b", "", [Anchor(FOO, "Foo")]), Anchor(BAR, "Bar")]);
    var anc := ["p"] + BODY;
    var kb, bar := Item(Element("b", "", [Anchor(FOO, "Foo")]), anc), Item(Anchor(BAR, "Bar"), anc);
    var foo := Item(Anchor(FOO, "Foo"), ["b"] + anc);
    TwoChildren(Element("b", "", [Anchor(FOO, "Foo")]), Anchor(BAR, "Bar"));
    var rest := Dfs(ChildItems(foo) + [bar]);
    assert Dfs([p]) == [p] + ([kb] + ([foo] + rest)) by {
      DfsCons(p, []);
      assert ChildItems(p) + [] == [kb] + [bar];
      DfsCons(kb, [bar]);
      assert ChildItems(kb) == [foo];
      DfsCons(foo, [bar]);
    }
    InternalTargets();
    assert ValidLink(foo);
    SelectCons(foo, rest, 0);
    SelectPassesOver([p, kb], [foo] + rest, 0);
    assert [p, kb] + ([foo] + rest) == [p] + ([kb] + ([foo] + rest));
  }

  /** The whole iteration order of a paragraph holding a text and a link. */
  lemma TextThenAnchorOrder(text: string, href: string)
    ensures var anc := ["p"] + BODY;
            Bfs([Paragraph([Text(text), Anchor(href, "Foo")])]) ==
            [Paragraph([Text(text), Anchor(href, "Foo")])] +
              ([Item(Text(text), anc)] + ([Item(Anchor(href, "Foo"), anc)] + ([Item(Text("Foo"), ["a"] + anc)] + [])))
  {
    var p := Paragraph([Text(text), Anchor(href, "Foo")]);
    var anc := ["p"] + BODY;
    var foo, caption := Item(Anchor(href, "Foo"), anc), Item(Text("Foo"), ["a"] + anc);
    TwoChildren(Text(text), Anchor(href, "Foo"));
    var kids := ChildItems(p);
    assert AllChildren(kids) == [caption] by {
      assert kids[1..] == [foo];
      assert ChildItems(foo) == [caption];
      assert AllChildren([foo]) == [caption] + AllChildren([]);
    }
    assert AllChildren([caption]) == [] + AllChildren([]);
    BfsLevels(p);
  }

  /** `x) <a>Foo</a>`: a stray closing parenthesis drives the counter
      below zero and no later link of the paragraph is chosen. */
  lemma StrayClosingParenthesisBlocks()
    ensures FirstValidLink(Paragraph([Text("x) "), Anchor(FOO, "Foo")])) == None
  {
    var anc := ["p"] + BODY;
    var stray, foo := Item(Text("x) "), anc), Item(Anchor(FOO, "Foo"), anc);
    var caption := Item(Text("Foo"), ["a"] + anc);
    StrayCount();
    ParenBalanceNoParens("Foo");
    TextThenAnchorOrder("x) ", FOO);
    SelectCons(caption, [], -1);
    SelectCons(foo, [caption] + [], -1);
    SelectCons(stray, [foo] + ([caption] + []), 0);
    SelectPassesOver([Paragraph([Text("x) "), Anchor(FOO, "Foo")])], [stray] + ([foo] + ([caption] + [])), 0);
  }

  /** `x) ( <a>Foo</a>`: a closing parenthesis followed by an opening one
      brings the counter back to zero, so Foo counts as outside
      parentheses although it follows an unclosed `(`. */
  lemma CounterIsNotANestingCheck()
    ensures FirstValidLink(Paragraph([Text("x) ( "), Anchor(FOO, "Foo")])) == Some(FOO)
  {
    var p := Paragraph([Text("x) ( "), Anchor(FOO, "Foo")]);
    var anc := ["p"] + BODY;
    var text, foo := Item(Text("x) ( "), anc), Item(Anchor(FOO, "Foo"), anc);
    TwoChildren(Text("x) ( "), Anchor(FOO, "Foo"));
    var kids := ChildItems(p);
    StrayCount();
    InternalTargets();
    assert ValidLink(foo);
    assert Select([p] + kids, 0) == Some(FOO) by {
      SelectCons(foo, [], 0);
      SelectCons(text, [foo] + [], 0);
      assert kids == [text] + ([foo] + []);
      SelectPassesOver([p], kids, 0);
    }
    SelectAppend([p] + kids, AllChildren(kids), 0);
    DecidedByLevels(p);
  }
}
