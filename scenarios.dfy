/**
 * Worked examples of the whole decision: one set of settings, three message
 * rows, one sidebar row, literal keyword matching and the reveal sequence.
 * Each literal fact is its own small lemma.
 */
module Scenarios {
  import opened Js
  import opened Text
  import opened Matching
  import opened Keywords
  import opened Conceal
  import opened Config
  import opened Extract
  import opened Policy
  import opened Engine

  /** Enabled, not blurring everything, target "Alex", keyword "urgent", intensity 6, blur mode. */
  function Example(): (s: Settings)
    ensures s.enabled && !s.blurAll && s.keywordList == ["urgent"] && s.targetPerson == "Alex"
  {
    Settings(true, false, "Alex", "urgent", ["urgent"], 6, Blur)
  }

  /** What the options page stored: a target, a keyword and an intensity; the rest is left unset. */
  function ExampleStored(): map<string, Value> {
    map["targetPerson" := Str("Alex"), "keywords" := Str("urgent"), "blurIntensity" := Num(6)]
  }

  /** Loading those stored values over the defaults gives exactly the example settings. */
  lemma ExampleFromStorage()
    ensures Sanitize(WithDefaults(ExampleStored())) == Ok(Example())
  {
    var raw := StoredRaw();
    StoredKeywords();
    AlexTrimmed();
    assert PersonValue(raw) == Str("Alex");
    assert (raw.concealMode == Str("opaque")) == (Example().concealMode == Opaque) by {
      assert "blur"[0] != "opaque"[0];
    }
    SanitizeAgrees(raw, Example(), ["urgent"]);
  }

  /** The stored values over the defaults, field by field. */
  function StoredRaw(): (raw: Raw)
    ensures raw == WithDefaults(ExampleStored())
  {
    var stored := ExampleStored();
    assert "enabled" !in stored && "blurAll" !in stored && "concealMode" !in stored;
    assert "targetNames" !in stored && "blurAmount" !in stored;
    Raw(Bool(true), Bool(false), Str("Alex"), Str("urgent"), Num(6), Str("blur"), Arr([]), Num(DefaultIntensity))
  }

  /** The stored keyword text reads back as the one keyword, already in normal form. */
  lemma StoredKeywords()
    ensures ParseKeywordList(Str("urgent")) == Ok(["urgent"])
    ensures Join(["urgent"], ", ") == "urgent" && NormalizeAll(["urgent"]) == ["urgent"]
  {
    UrgentKeyword();
    assert ',' !in "urgent";
    assert Join(["urgent"], ", ") == "urgent";
    KeywordValueRoundTrip(["urgent"]);
    UrgentBodyPlain();
    assert Trimmed("urgent") by {
      assert !IsSpace("urgent"[0]) && !IsSpace("urgent"[5]);
    }
    NormalizeFixes("urgent");
  }

  // ---------------------------------------------------------------------------
  // literal facts

  lemma AlexNormal()
    ensures Normalize("Alex") == "alex"
    ensures !AllSpace("Alex")
  {
    AlexTrimmed();
    AlexLower();
  }

  lemma AlexTrimmed()
    ensures Trimmed("Alex") && Trim("Alex") == "Alex" && !AllSpace("Alex")
  {
    assert !IsSpace("Alex"[0]);
  }

  lemma AlexLower()
    ensures ToLower("Alex") == "alex"
  {
    var l := ToLower("Alex");
    assert l[0] == Lower('A') == 'a';
    assert l[1] == 'l' && l[2] == 'e' && l[3] == 'x';
  }

  lemma AlexMTrimmed()
    ensures Trimmed("Alex M.") && Trim("Alex M.") == "Alex M."
    ensures Contains("Alex M.", Trim("Alex"))
  {
    assert Trimmed("Alex");
    assert "Alex M." == [] + "Alex" + " M.";
    ContainsInConcat([], "Alex", " M.");
  }

  lemma UrgentKeyword()
    ensures IsKeyword("urgent") && IsLowerCase("urgent")
  {
  }

  lemma ExampleCanonical()
    ensures Canonical(Example())
  {
    UrgentKeyword();
    assert Trimmed("Alex");
  }

  /** Text that is already trimmed and lower-case is its own normalisation. */
  lemma NormalizeFixes(s: string)
    requires Trimmed(s) && IsLowerCase(s)
    ensures Normalize(s) == s
  {
    assert ToLower(s) == s;
  }

  /** A single trimmed, non-empty part is the whole row text. */
  lemma RowTextSingle(p: string)
    requires Trimmed(p) && p != []
    ensures RowText([p]) == p
  {
    assert TrimAll([p]) == [p];
    assert DropEmpty([p]) == [p];
  }

  lemma UrgentInBody()
    ensures Contains(Normalize("this is urgent"), "urgent")
  {
    UrgentBodyPlain();
    NormalizeFixes("this is urgent");
    assert "this is urgent" == "this is " + "urgent" + [];
    ContainsInConcat("this is ", "urgent", []);
  }

  lemma UrgentBodyPlain()
    ensures Trimmed("this is urgent") && IsLowerCase("this is urgent")
  {
  }

  lemma HelloShort()
    ensures Normalize(RowText(["hello"])) == "hello"
  {
    HelloPlain();
    RowTextSingle("hello");
    NormalizeFixes("hello");
  }

  lemma UrgentNotInHello()
    ensures !KeywordHit(["urgent"], "hello")
  {
    assert forall kw | kw in ["urgent"] :: |kw| > |"hello"|;
  }

  lemma HelloPlain()
    ensures Trimmed("hello") && IsLowerCase("hello") && "hello" != []
  {
  }

  lemma ExampleDirections()
    ensures IsIncomingRow("false_1", "") && IsIncomingRow("false_3", "")
    ensures !IsIncomingRow("true_2", "")
  {
    DirectionPrecedence("1", "");
    DirectionPrecedence("2", "");
    DirectionPrecedence("3", "");
    assert "false_" + "1" == "false_1" && "false_" + "3" == "false_3";
    assert "true_" + "2" == "true_2";
  }

  lemma AlexLoose()
    ensures NormalizeLoose(Normalize("Alex")) == "alex"
  {
    AlexNormal();
    assert LooseForm("alex");
    LooseFixpoint("alex");
  }

  // ---------------------------------------------------------------------------
  // message rows

  /** An inbound row whose name node reads "Alex M." is concealed by the target, whatever its text. */
  lemma InboundAlexConcealed(row: MessageRow, chatTitle: string)
    requires row.dataId == "false_1" && row.className == ""
    requires row.prePlainText.None? && row.nameNode == Some(NameNode("Alex M.", "", ""))
    ensures ShouldBlurRow(Example(), row, chatTitle)
  {
    ExampleDirections();
    AlexNormal();
    AlexMTrimmed();
    assert RowAuthor(row.prePlainText, row.nameNode) == "Alex M.";
    TargetInSourceMatches("Alex", "Alex M.");
    assert AuthorRule(Example(), row);
    RowDecisionRules(Example(), row, chatTitle);
  }

  /** A row with the body "this is urgent" is concealed by the keyword, in either direction. */
  lemma UrgentConcealed(row: MessageRow, chatTitle: string)
    requires row.textParts == ["this is urgent"]
    ensures ShouldBlurRow(Example(), row, chatTitle)
  {
    ExampleCanonical();
    UrgentInBody();
    KeywordInPartConceals(Example(), row, chatTitle, 0, "urgent");
  }

  /** The outbound row of the example is one of these. */
  lemma OutboundUrgentConcealed(row: MessageRow, chatTitle: string)
    requires row.dataId == "true_2" && row.className == "" && row.textParts == ["this is urgent"]
    ensures !Incoming(row) && ShouldBlurRow(Example(), row, chatTitle)
  {
    ExampleDirections();
    UrgentConcealed(row, chatTitle);
  }

  /**
   * An inbound row from "Sam" saying "hello" stays visible, as long as the
   * open chat's title does not itself match the target.
   */
  lemma InboundSamVisible(row: MessageRow, chatTitle: string)
    requires row.dataId == "false_3" && row.className == ""
    requires row.prePlainText.None? && row.nameNode == Some(NameNode("Sam", "", ""))
    requires row.textParts == ["hello"]
    requires !TitleRule(Example(), chatTitle)
    ensures Incoming(row) && !ShouldBlurRow(Example(), row, chatTitle)
  {
    ExampleDirections();
    SamNotAuthor(row);
    SamNoKeyword(row);
    RowDecisionRules(Example(), row, chatTitle);
  }

  lemma SamNotAuthor(row: MessageRow)
    requires row.prePlainText.None? && row.nameNode == Some(NameNode("Sam", "", ""))
    ensures !AuthorRule(Example(), row)
  {
    SamAuthor(row);
    AlexLoose();
    ShorterSourceMisses(Normalize("Alex"), Normalize("Sam"));
  }

  lemma SamAuthor(row: MessageRow)
    requires row.prePlainText.None? && row.nameNode == Some(NameNode("Sam", "", ""))
    ensures RowAuthor(row.prePlainText, row.nameNode) == "Sam"
    ensures |Normalize("Sam")| == 3
  {
    assert !IsSpace("Sam"[0]) && !IsSpace("Sam"[2]);
    assert Trimmed("Sam");
  }

  lemma SamNoKeyword(row: MessageRow)
    requires row.textParts == ["hello"]
    ensures !KeywordRule(Example(), row)
  {
    HelloShort();
    UrgentNotInHello();
  }

  // ---------------------------------------------------------------------------
  // keywords are literal

  lemma SecretInText()
    ensures KeywordHit(["secret"], "this is secret info")
  {
    assert "this is secret info" == "this is " + "secret" + " info";
    ContainsInConcat("this is ", "secret", " info");
  }

  lemma SecretNotInLeet()
    ensures !KeywordHit(["secret"], "s3cr3t")
  {
    assert !OccursAt("s3cr3t", "secret", 0) by {
      assert "s3cr3t"[1] != "secret"[1];
    }
  }

  // ---------------------------------------------------------------------------
  // the sidebar

  lemma TimeFiltered()
    ensures !Survives("12:03")
  {
    assert Trimmed("12:03");
    assert LooksLikeTime("12:03");
  }

  /**
   * A sidebar row named "Alex M." whose only preview text is the time "12:03"
   * (found both by the snippet selector and by the last-resort one, which also
   * sees the title node).
   */
  function DirectoryRow(element: Node, title: Node, time: Node, container: Node): SidebarRow {
    SidebarRow(element, true, false, Some(TitleNode(title, "Alex M.", "Alex M.")),
      [[Candidate(time, "12:03")]], None, [Candidate(title, "Alex M."), Candidate(time, "12:03")], Some(container))
  }

  lemma DirectoryNoPreview(element: Node, title: Node, time: Node, container: Node)
    ensures PreviewNodes(DirectoryRow(element, title, time, container)) == []
  {
    var row := DirectoryRow(element, title, time, container);
    DirectoryNoSnippet(time);
    DirectoryNoGeneric(title, time);
    assert FirstFamily(row.snippetFamilies, 1) == None;
    assert FirstFamily(row.snippetFamilies, 0) == None;
  }

  lemma DirectoryNoSnippet(time: Node)
    ensures Surviving([Candidate(time, "12:03")]) == []
  {
    TimeFiltered();
  }

  lemma DirectoryNoGeneric(title: Node, time: Node)
    ensures GenericSurviving([Candidate(title, "Alex M."), Candidate(time, "12:03")],
      Some(TitleNode(title, "Alex M.", "Alex M."))) == []
  {
    var t := Some(TitleNode(title, "Alex M.", "Alex M."));
    var named, timed := Candidate(title, "Alex M."), Candidate(time, "12:03");
    assert !GenericSurvives(named, t);
    assert !GenericSurvives(timed, t) by {
      TimeFiltered();
    }
    assert GenericSurviving([timed], t) == GenericSurviving([], t) by {
      assert [timed][1..] == [];
    }
    assert [named, timed][1..] == [timed];
  }

  lemma DirectoryNameMatches(element: Node, title: Node, time: Node, container: Node)
    ensures NameRule(Example(), DirectoryRow(element, title, time, container))
  {
    var row := DirectoryRow(element, title, time, container);
    AlexNormal();
    AlexMTrimmed();
    assert SidebarRowName(row.titleNode) == "Alex M.";
    TargetInSourceMatches("Alex", "Alex M.");
  }

  /**
   * No preview node survives, so the container is concealed instead, and the
   * row's name conceals it.
   */
  lemma DirectoryFallsBackToContainer(element: Node, title: Node, time: Node, container: Node)
    ensures var row := DirectoryRow(element, title, time, container);
      && PreviewNodes(row) == []
      && SidebarTargets(row) == [container]
      && ShouldBlurSidebarRow(Example(), row)
  {
    var row := DirectoryRow(element, title, time, container);
    DirectoryNoPreview(element, title, time, container);
    DirectoryNameMatches(element, title, time, container);
    SidebarDecisionRules(Example(), row);
  }

  /** A lone listed row survives de-duplication. */
  lemma LoneRowDeduped(row: SidebarRow)
    requires Listed(row)
    ensures Dedup([row]) == [row]
  {
    assert [row][1..] == [];
    assert DedupFrom([row], {}) == [row] + DedupFrom([], {row.element});
  }

  /** A pass over that one sidebar row and no message rows visits only the container, to conceal it. */
  lemma DirectoryPassWork(element: Node, title: Node, time: Node, container: Node, chatTitle: string)
    ensures PassWork(Example(), [], chatTitle, [DirectoryRow(element, title, time, container)]) == [(container, true)]
  {
    var row := DirectoryRow(element, title, time, container);
    DirectoryGroups(element, title, time, container);
    LoneRowDeduped(row);
    SpreadSingle(container, true);
    var sidebar := SidebarWork(Example(), [row]);
    assert sidebar == [(container, true)];
    assert PassWork(Example(), [], chatTitle, [row]) == MessageWork(Example(), [], chatTitle) + sidebar;
  }

  /** The row's one target group is the container, and the row decides to conceal it. */
  lemma DirectoryGroups(element: Node, title: Node, time: Node, container: Node)
    ensures var row := DirectoryRow(element, title, time, container);
      TargetGroups([row]) == [[container]] && RowDecisions(Example(), [row]) == [true]
  {
    var row := DirectoryRow(element, title, time, container);
    DirectoryFallsBackToContainer(element, title, time, container);
    LoneRowGroups(Example(), row);
  }

  /** A lone row's one target group and its one decision. */
  lemma LoneRowGroups(s: Settings, row: SidebarRow)
    ensures TargetGroups([row]) == [SidebarTargets(row)]
    ensures RowDecisions(s, [row]) == [ShouldBlurSidebarRow(s, row)]
  {
    assert [row][0] == row;
  }

  lemma SpreadSingle(n: Node, d: bool)
    ensures Spread([[n]], [d]) == [(n, d)]
  {
    assert WithDecision([n], d) == [(n, d)];
    assert [[n]][1..] == [];
  }

  /**
   * So the pass leaves the container blurred, unless the user had already
   * revealed it.
   */
  lemma DirectoryContainerConcealed(element: Node, title: Node, time: Node, container: Node,
                                    chatTitle: string, before: NodeState)
    requires RevealClass !in before.classes
    ensures var work := PassWork(Example(), [], chatTitle, [DirectoryRow(element, title, time, container)]);
      && container in Touched(work)
      && LookOf(Fold(before, DecisionsFor(container, work), Example().concealMode)) == Blurred
  {
    DirectoryPassWork(element, title, time, container, chatTitle);
    var work := [(container, true)];
    assert work[0].0 == container;
    assert OnlyConcealed(container, work);
    ConcealedAfterWork(work, container, before, Blur);
  }

  // ---------------------------------------------------------------------------
  // revealing

  /**
   * Concealed, revealed by a click, then concealed again by the next pass:
   * the node stays revealed.
   */
  lemma RevealSurvivesPass(n: NodeState, mode: ConcealMode)
    requires n.classes * Owned == {}
    ensures LookOf(Applied(Clicked(Applied(n, mode)), mode)) == Revealed
  {
    assert RevealClass !in n.classes by {
      assert RevealClass in Owned;
      assert RevealClass !in n.classes * Owned;
    }
    ClickToggles(n, mode);
    var clicked := Clicked(Applied(n, mode));
    assert BlurClass in clicked.classes && RevealClass in clicked.classes by { OwnedDistinct(); }
    AppliedLook(clicked, mode);
  }

  /**
   * Concealed, revealed, cleared by a pass whose policy no longer matches,
   * then concealed by a later pass: the node is concealed, not revealed.
   */
  lemma RevealResetByClear(n: NodeState, mode: ConcealMode)
    ensures LookOf(Applied(Removed(Clicked(Applied(n, mode))), mode)) == ConcealedLook(mode)
  {
    ReconcealHides(Clicked(Applied(n, mode)), mode);
  }
}
