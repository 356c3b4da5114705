/**
 * `shouldBlurRow` and `shouldBlurSidebarRow`: first-match-wins rule chains
 * over the settings and the values extracted from a row.
 */
module Policy {
  import opened Js
  import opened Text
  import opened Matching
  import opened Keywords
  import opened Conceal
  import opened Config
  import opened Extract

  /**
   * A message row as the decision sees it: the node to conceal, its
   * `data-id` and class name ("" when absent), the metadata attribute, the
   * name node, and the texts of its text nodes.
   */
  datatype MessageRow = MessageRow(
    target: Node,
    dataId: string,
    className: string,
    prePlainText: Option<string>,
    nameNode: Option<NameNode>,
    textParts: seq<string>)

  /** `keywordList.length > 0` and `text && keywordList.some((kw) => text.includes(kw))`. */
  predicate KeywordHit(keywordList: seq<string>, text: string) {
    |keywordList| > 0 && text != [] && exists kw | kw in keywordList :: Contains(text, kw)
  }

  function Incoming(row: MessageRow): bool {
    IsIncomingRow(row.dataId, row.className)
  }

  // The rules of `shouldBlurRow`, one predicate each.

  predicate BlurAllRule(s: Settings, row: MessageRow) {
    s.blurAll && Incoming(row)
  }

  predicate TitleRule(s: Settings, chatTitle: string) {
    Normalize(s.targetPerson) != [] && MatchesTarget(Normalize(s.targetPerson), Normalize(chatTitle))
  }

  predicate AuthorRule(s: Settings, row: MessageRow) {
    && Normalize(s.targetPerson) != [] && Incoming(row)
    && MatchesTarget(Normalize(s.targetPerson), Normalize(RowAuthor(row.prePlainText, row.nameNode)))
  }

  predicate KeywordRule(s: Settings, row: MessageRow) {
    KeywordHit(s.keywordList, Normalize(RowText(row.textParts)))
  }

  /** `shouldBlurRow`, with the chat title `getCurrentChatName` found as an input. */
  function ShouldBlurRow(s: Settings, row: MessageRow, chatTitle: string): (r: bool)
    ensures !s.enabled ==> !r
    ensures s.enabled && BlurAllRule(s, row) ==> r
  {
    if !s.enabled then false
    else
      var incoming := IsIncomingRow(row.dataId, row.className);
      var target := Normalize(s.targetPerson);
      var chatName := Normalize(chatTitle);
      if s.blurAll && incoming then true
      else if target != [] && MatchesTarget(target, chatName) then true
      else if target != [] && incoming && MatchesTarget(target, Normalize(RowAuthor(row.prePlainText, row.nameNode))) then true
      else
        var text := Normalize(RowText(row.textParts));
        if |s.keywordList| > 0 && text != [] && exists kw | kw in s.keywordList :: Contains(text, kw) then true
        else false
  }

  /** The chain decides exactly as the disjunction of its rules, under `enabled`. */
  lemma RowDecisionRules(s: Settings, row: MessageRow, chatTitle: string)
    ensures ShouldBlurRow(s, row, chatTitle) <==>
      s.enabled && (BlurAllRule(s, row) || TitleRule(s, chatTitle) || AuthorRule(s, row) || KeywordRule(s, row))
  {
  }

  /** A matching chat title conceals a row in either direction. */
  lemma TitleConcealsAnyDirection(s: Settings, row: MessageRow, chatTitle: string)
    requires s.enabled && TitleRule(s, chatTitle)
    ensures ShouldBlurRow(s, row, chatTitle)
    ensures ShouldBlurRow(s, row.(dataId := "true_" + row.dataId), chatTitle)
  {
  }

  /** An outbound row's author is never consulted. */
  lemma OutboundIgnoresAuthor(s: Settings, row: MessageRow, chatTitle: string,
                              prePlainText: Option<string>, nameNode: Option<NameNode>)
    requires !Incoming(row)
    ensures ShouldBlurRow(s, row, chatTitle) ==
      ShouldBlurRow(s, row.(prePlainText := prePlainText, nameNode := nameNode), chatTitle)
  {
  }

  /** `blurAll` conceals every inbound row and, alone, no outbound one. */
  lemma BlurAllOnlyInbound(s: Settings, row: MessageRow, chatTitle: string)
    requires s.enabled && s.blurAll
    ensures Incoming(row) ==> ShouldBlurRow(s, row, chatTitle)
    ensures !Incoming(row) ==>
      (ShouldBlurRow(s, row, chatTitle) <==> TitleRule(s, chatTitle) || KeywordRule(s, row))
  {
  }

  /**
   * A stored keyword inside any text part of a row (up to case and the part's
   * outer whitespace) conceals the row, whatever its direction.
   */
  lemma KeywordInPartConceals(s: Settings, row: MessageRow, chatTitle: string, i: int, keyword: string)
    requires Canonical(s) && s.enabled
    requires 0 <= i < |row.textParts| && keyword in s.keywordList
    requires Contains(Normalize(row.textParts[i]), keyword)
    ensures ShouldBlurRow(s, row, chatTitle)
  {
    assert keyword != [];
    KeywordInPartHits(s.keywordList, row.textParts, i, keyword);
    RowDecisionRules(s, row, chatTitle);
  }

  lemma KeywordInPartHits(keywordList: seq<string>, parts: seq<string>, i: int, keyword: string)
    requires 0 <= i < |parts| && keyword in keywordList && keyword != []
    requires Contains(Normalize(parts[i]), keyword)
    ensures KeywordHit(keywordList, Normalize(RowText(parts)))
  {
    var text := RowText(parts);
    assert Contains(Normalize(text), Normalize(parts[i])) by {
      RowTextContainsPart(parts, i);
      LowerContains(text, Trim(parts[i]));
      assert Trim(text) == text;
    }
    ContainsTransitive(Normalize(text), Normalize(parts[i]), keyword);
    var o :| 0 <= o <= |Normalize(text)| - |keyword| && OccursAt(Normalize(text), keyword, o);
  }

  // ---------------------------------------------------------------------------
  // shouldBlurSidebarRow

  predicate NameRule(s: Settings, row: SidebarRow) {
    Normalize(s.targetPerson) != [] &&
    MatchesTarget(Normalize(s.targetPerson), Normalize(SidebarRowName(row.titleNode)))
  }

  predicate PreviewRule(s: Settings, row: SidebarRow) {
    KeywordHit(s.keywordList, PreviewText(row))
  }

  /** `shouldBlurSidebarRow`. */
  function ShouldBlurSidebarRow(s: Settings, row: SidebarRow): (r: bool)
    ensures !s.enabled ==> !r
    ensures s.enabled && s.blurAll ==> r
  {
    if !s.enabled then false
    else if s.blurAll then true
    else
      var target := Normalize(s.targetPerson);
      var rowName := Normalize(SidebarRowName(row.titleNode));
      var previewText := PreviewText(row);
      if target != [] && MatchesTarget(target, rowName) then true
      else if |s.keywordList| > 0 && previewText != [] && exists kw | kw in s.keywordList :: Contains(previewText, kw) then true
      else false
  }

  lemma SidebarDecisionRules(s: Settings, row: SidebarRow)
    ensures ShouldBlurSidebarRow(s, row) <==> s.enabled && (s.blurAll || NameRule(s, row) || PreviewRule(s, row))
  {
  }

  /** A stored keyword inside one preview node's text conceals the sidebar row. */
  lemma KeywordInPreviewConceals(s: Settings, row: SidebarRow, i: int, keyword: string)
    requires Canonical(s) && s.enabled
    requires 0 <= i < |PreviewNodes(row)| && keyword in s.keywordList
    requires Contains(Normalize(PreviewNodes(row)[i].text), keyword)
    ensures ShouldBlurSidebarRow(s, row)
  {
    PreviewTextHoldsNode(row, i, keyword);
    var t := PreviewText(row);
    var o :| 0 <= o <= |t| - |keyword| && OccursAt(t, keyword, o);
    assert PreviewRule(s, row);
  }

  // ---------------------------------------------------------------------------
  // matching a name that contains the target

  /** A source that contains the target (trimmed) matches it after both are normalised. */
  lemma TargetInSourceMatches(target: string, source: string)
    requires !AllSpace(target) && Contains(source, Trim(target))
    ensures MatchesTarget(Normalize(target), Normalize(source))
  {
    ContainsTrim(source, Trim(target));
    LowerContains(Trim(source), Trim(target));
    var t := Normalize(target);
    assert Trim(t) == t;
    LowerIdempotent(Trim(source));
    LowerIdempotent(Trim(target));
    MatchesTargetStrict(t, Normalize(source));
  }
}
