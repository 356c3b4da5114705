/**
 * What the decisions read from a row once the DOM has been queried: the
 * author in a message's metadata, its direction, its text, the sidebar name,
 * the sidebar preview nodes, and the de-duplicated sidebar rows. Query results
 * arrive as plain values; the nodes themselves are `Conceal.Node` objects.
 */
module Extract {
  import opened Js
  import opened Text
  import opened Matching
  import opened Keywords
  import opened Conceal

  // ---------------------------------------------------------------------------
  // parseAuthorFromPrePlainText: /\]\s(.+?):\s$/

  /** `String(value || "")` for an attribute that may be missing. */
  function AttrText(attr: Option<string>): string {
    if attr.Some? then attr.value else ""
  }

  /**
   * The pattern matches starting at `i`: a `]`, one whitespace character, a
   * capture of at least one character none of which ends a line, then `:` and
   * one whitespace character that end the string. The capture is lazy, but the
   * end anchor leaves it only one place to stop.
   */
  predicate AuthorAt(s: string, i: int) {
    && 0 <= i && i + 5 <= |s|
    && s[i] == ']' && IsSpace(s[i + 1])
    && s[|s| - 2] == ':' && IsSpace(s[|s| - 1])
    && forall k :: i + 2 <= k < |s| - 2 ==> !IsLineTerminator(s[k])
  }

  /** The capture of a match starting at `i`. */
  function Group(s: string, i: int): string
    requires AuthorAt(s, i)
  {
    s[i + 2..|s| - 2]
  }

  /** The leftmost start at or after `from` where the pattern matches. */
  function FindAuthorStart(s: string, from: nat): (r: Option<nat>)
    requires from <= |s|
    ensures r.Some? ==> from <= r.value && AuthorAt(s, r.value)
    ensures r.Some? ==> forall j :: from <= j < r.value ==> !AuthorAt(s, j)
    ensures r.None? ==> forall j :: from <= j < |s| ==> !AuthorAt(s, j)
    decreases |s| - from
  {
    if from == |s| then None
    else if AuthorAt(s, from) then Some(from)
    else FindAuthorStart(s, from + 1)
  }

  /** `parseAuthorFromPrePlainText`: the trimmed capture of the leftmost match, or "". */
  function ParseAuthor(prePlainText: Option<string>): (r: string)
    ensures Trimmed(r)
    ensures var s := AttrText(prePlainText);
      (forall i :: 0 <= i < |s| ==> !AuthorAt(s, i)) ==> r == []
    ensures var s := AttrText(prePlainText);
      forall i | 0 <= i < |s| && AuthorAt(s, i) && (forall j :: 0 <= j < i ==> !AuthorAt(s, j)) ::
        r == Trim(Group(s, i))
  {
    var s := AttrText(prePlainText);
    match FindAuthorStart(s, 0)
    case None => []
    case Some(i) => Trim(Group(s, i))
  }

  /**
   * The metadata shape the page writes, `"[" + stamp + "] " + author + ": "`,
   * gives back the author, as long as the stamp holds no `]` and the author
   * has no outer whitespace and no line break.
   */
  lemma AuthorRoundTrip(stamp: string, author: string)
    requires forall k :: 0 <= k < |stamp| ==> stamp[k] != ']'
    requires author != [] && Trimmed(author)
    requires forall k :: 0 <= k < |author| ==> !IsLineTerminator(author[k])
    ensures ParseAuthor(Some("[" + stamp + "] " + author + ": ")) == author
  {
    var s := "[" + stamp + "] " + author + ": ";
    var i := |stamp| + 1;
    assert s[i] == ']' && s[i + 1] == ' ';
    assert s[|s| - 2] == ':' && s[|s| - 1] == ' ';
    assert Group(s, i) == author by {
      assert s[i + 2..|s| - 2] == author;
    }
    forall j | 0 <= j < i ensures !AuthorAt(s, j) {
      if j > 0 { assert s[j] == stamp[j - 1]; }
    }
  }

  /** The example the page's metadata follows. */
  lemma AuthorExample()
    ensures ParseAuthor(Some("[10:00, 1/1/2024] Alex: ")) == "Alex"
  {
    var stamp := "10:00, 1/1/2024";
    var author := "Alex";
    assert "[" + stamp + "] " + author + ": " == "[10:00, 1/1/2024] Alex: ";
    AuthorRoundTrip(stamp, author);
  }

  // ---------------------------------------------------------------------------
  // isIncomingRow

  predicate StartsWith(s: string, prefix: string) {
    |prefix| <= |s| && s[..|prefix|] == prefix
  }

  /**
   * `isIncomingRow`: the `data-id` prefix decides first, then the class name,
   * and a row with neither reads as inbound. An absent attribute is "".
   */
  function IsIncomingRow(dataId: string, className: string): (r: bool)
    ensures StartsWith(dataId, "false_") ==> r
    ensures StartsWith(dataId, "true_") ==> !r
    ensures !StartsWith(dataId, "false_") && !StartsWith(dataId, "true_") ==>
      (r <==> Contains(className, "message-in") || !Contains(className, "message-out"))
  {
    PrefixesExclusive(dataId);
    if StartsWith(dataId, "false_") then true
    else if StartsWith(dataId, "true_") then false
    else if Contains(className, "message-in") then true
    else if Contains(className, "message-out") then false
    else true
  }

  lemma PrefixesExclusive(dataId: string)
    ensures !(StartsWith(dataId, "false_") && StartsWith(dataId, "true_"))
  {
    if StartsWith(dataId, "false_") {
      assert dataId[0] == "false_"[0] == 'f';
      assert "true_"[0] == 't';
      assert dataId[..5][0] == 'f';
    }
  }

  /** The `data-id` prefix outranks any class name, and a bare row is inbound. */
  lemma DirectionPrecedence(rest: string, className: string)
    ensures IsIncomingRow("false_" + rest, className)
    ensures !IsIncomingRow("true_" + rest, className)
    ensures IsIncomingRow("", "")
  {
    assert ("false_" + rest)[..6] == "false_";
    assert ("true_" + rest)[..5] == "true_";
  }

  // ---------------------------------------------------------------------------
  // getRowText, getRowAuthor, getSidebarRowName

  /** `getRowText`: the trimmed non-empty text parts joined by one space. */
  function RowText(parts: seq<string>): (r: string)
    ensures Trimmed(r)
    ensures r == [] <==> forall i :: 0 <= i < |parts| ==> AllSpace(parts[i])
  {
    var kept := DropEmpty(TrimAll(parts));
    var r := Trim(Join(kept, " "));
    assert r == [] <==> forall i :: 0 <= i < |parts| ==> AllSpace(parts[i]) by {
      if exists i :: 0 <= i < |parts| && !AllSpace(parts[i]) {
        var i :| 0 <= i < |parts| && !AllSpace(parts[i]);
        RowTextHoldsPart(parts, i);
      } else {
        assert forall i :: 0 <= i < |parts| ==> TrimAll(parts)[i] == [];
      }
    }
    r
  }

  /** Every part's trimmed text occurs in the row text. */
  lemma RowTextHoldsPart(parts: seq<string>, i: int)
    requires 0 <= i < |parts|
    ensures Contains(Trim(Join(DropEmpty(TrimAll(parts)), " ")), Trim(parts[i]))
    ensures !AllSpace(parts[i]) ==> Trim(Join(DropEmpty(TrimAll(parts)), " ")) != []
  {
    var part := Trim(parts[i]);
    var kept := DropEmpty(TrimAll(parts));
    var joined := Join(kept, " ");
    if part == [] {
      assert OccursAt(Trim(joined), part, 0);
    } else {
      assert part in TrimAll(parts) by { assert TrimAll(parts)[i] == part; }
      var j :| 0 <= j < |kept| && kept[j] == part;
      JoinContains(kept, " ", j);
      ContainsTrim(joined, part);
      var t := Trim(joined);
      var o :| 0 <= o <= |t| - |part| && OccursAt(t, part, o);
    }
  }

  /** `getRowText(row)` holds each of the row's parts. */
  lemma RowTextContainsPart(parts: seq<string>, i: int)
    requires 0 <= i < |parts|
    ensures Contains(RowText(parts), Trim(parts[i]))
  {
    RowTextHoldsPart(parts, i);
  }

  /** The `span[title], span[aria-label]` node of a message row; a missing attribute is "". */
  datatype NameNode = NameNode(title: string, ariaLabel: string, text: string)

  /** `(a || b || c || "").trim()` over strings. */
  function FirstNonEmpty(a: string, b: string, c: string): string {
    if a != [] then a else if b != [] then b else c
  }

  /**
   * `getRowAuthor`: the author in the metadata when there is one, else the
   * name node's title, label or text, else "".
   */
  function RowAuthor(prePlainText: Option<string>, nameNode: Option<NameNode>): (r: string)
    ensures Trimmed(r)
    ensures ParseAuthor(prePlainText) != [] ==> r == ParseAuthor(prePlainText)
    ensures ParseAuthor(prePlainText) == [] && nameNode.None? ==> r == []
    ensures ParseAuthor(prePlainText) == [] && nameNode.Some? ==>
      r == Trim(FirstNonEmpty(nameNode.value.title, nameNode.value.ariaLabel, nameNode.value.text))
  {
    var fromPrePlain := ParseAuthor(prePlainText);
    if fromPrePlain != [] then fromPrePlain
    else match nameNode
      case None => []
      case Some(n) => Trim(FirstNonEmpty(n.title, n.ariaLabel, n.text))
  }

  /** The `span[title]` node of a sidebar row. */
  datatype TitleNode = TitleNode(node: Node, title: string, text: string)

  /** `getSidebarRowName`: the title node's title or text, trimmed; "" without a title node. */
  function SidebarRowName(titleNode: Option<TitleNode>): (r: string)
    ensures Trimmed(r)
    ensures titleNode.None? ==> r == []
    ensures titleNode.Some? && titleNode.value.title != [] ==> r == Trim(titleNode.value.title)
    ensures titleNode.Some? && titleNode.value.title == [] ==> r == Trim(titleNode.value.text)
  {
    match titleNode
    case None => []
    case Some(t) => Trim(if t.title != [] then t.title else t.text)
  }

  // ---------------------------------------------------------------------------
  // getSidebarPreviewNodes

  /** A node a selector returned, with its `textContent` ("" when null). */
  datatype Candidate = Candidate(node: Node, text: string)

  /** `/^\d{1,2}:\d{2}/`: one or two digits, a colon and two digits at the start. */
  predicate LooksLikeTime(t: string) {
    || (|t| >= 4 && IsDigit(t[0]) && t[1] == ':' && IsDigit(t[2]) && IsDigit(t[3]))
    || (|t| >= 5 && IsDigit(t[0]) && IsDigit(t[1]) && t[2] == ':' && IsDigit(t[3]) && IsDigit(t[4]))
  }

  /** `/^\d+$/`. */
  predicate AllDigits(t: string) {
    t != [] && forall k :: 0 <= k < |t| ==> IsDigit(t[k])
  }

  /** The filter every selector family applies to a node's trimmed text. */
  predicate Survives(text: string) {
    var t := Trim(text);
    t != [] && !LooksLikeTime(t) && !AllDigits(t)
  }

  /** The nodes of a family that pass the filter, in document order. */
  function Surviving(cs: seq<Candidate>): (r: seq<Candidate>)
    ensures forall c | c in r :: c in cs && Survives(c.text)
    ensures forall c | c in cs && Survives(c.text) :: c in r
    ensures |r| <= |cs|
    ensures |cs| == 1 ==> r == if Survives(cs[0].text) then cs else []
  {
    if cs == [] then []
    else
      assert cs == [cs[0]] + cs[1..];
      if Survives(cs[0].text) then [cs[0]] + Surviving(cs[1..]) else Surviving(cs[1..])
  }

  /** The filter works node by node: with the one-node case, this fixes the order and count of what it keeps. */
  lemma {:induction false} SurvivingConcat(a: seq<Candidate>, b: seq<Candidate>)
    ensures Surviving(a + b) == Surviving(a) + Surviving(b)
    decreases |a|
  {
    if a == [] {
      assert a + b == b;
    } else {
      assert (a + b)[0] == a[0];
      assert (a + b)[1..] == a[1..] + b;
      SurvivingConcat(a[1..], b);
    }
  }

  /** The longest text the last-resort branch keeps. */
  const MaxPreviewLength := 160

  /** The last-resort filter: also not the title node, and at most 160 characters. */
  predicate GenericSurvives(c: Candidate, titleNode: Option<TitleNode>) {
    && Survives(c.text)
    && !(titleNode.Some? && c.node == titleNode.value.node)
    && |Trim(c.text)| <= MaxPreviewLength
  }

  function GenericSurviving(cs: seq<Candidate>, titleNode: Option<TitleNode>): (r: seq<Candidate>)
    ensures forall c | c in r :: c in cs && GenericSurvives(c, titleNode)
    ensures forall c | c in cs && GenericSurvives(c, titleNode) :: c in r
    ensures |r| <= |cs|
    ensures |cs| == 1 ==> r == if GenericSurvives(cs[0], titleNode) then cs else []
  {
    if cs == [] then []
    else
      assert cs == [cs[0]] + cs[1..];
      if GenericSurvives(cs[0], titleNode) then [cs[0]] + GenericSurviving(cs[1..], titleNode)
      else GenericSurviving(cs[1..], titleNode)
  }

  /** The last-resort filter works node by node, so it keeps document order. */
  lemma {:induction false} GenericSurvivingConcat(a: seq<Candidate>, b: seq<Candidate>, titleNode: Option<TitleNode>)
    ensures GenericSurviving(a + b, titleNode) == GenericSurviving(a, titleNode) + GenericSurviving(b, titleNode)
    decreases |a|
  {
    if a == [] {
      assert a + b == b;
    } else {
      assert (a + b)[0] == a[0];
      assert (a + b)[1..] == a[1..] + b;
      GenericSurvivingConcat(a[1..], b, titleNode);
    }
  }

  /** `.slice(0, 3)`. */
  function Take3(cs: seq<Candidate>): (r: seq<Candidate>)
    ensures |r| == if |cs| < 3 then |cs| else 3
    ensures r == cs[..|r|]
  {
    if |cs| <= 3 then cs else cs[..3]
  }

  /**
   * What a sidebar row offers: its element, whether it has a title and a
   * secondary line, its title node, the nodes each of the direct snippet
   * selectors returned (in selector order), the secondary container's nodes
   * when it has one, the generic candidates, and the preview container.
   */
  datatype SidebarRow = SidebarRow(
    element: Node,
    hasTitle: bool,
    hasSecondary: bool,
    titleNode: Option<TitleNode>,
    snippetFamilies: seq<seq<Candidate>>,
    secondary: Option<seq<Candidate>>,
    generic: seq<Candidate>,
    container: Option<Node>)

  /** The survivors of each family, in selector order. */
  function SurvivorsOf(families: seq<seq<Candidate>>): (ss: seq<seq<Candidate>>)
    ensures |ss| == |families| && forall j :: 0 <= j < |families| ==> ss[j] == Surviving(families[j])
  {
    seq(|families|, j requires 0 <= j < |families| => Surviving(families[j]))
  }

  /** The index of the first non-empty list at or after `from`. */
  function FirstNonEmptyAt(ss: seq<seq<Candidate>>, from: nat): (r: Option<nat>)
    requires from <= |ss|
    ensures r.Some? ==> from <= r.value < |ss| && ss[r.value] != []
    ensures r.Some? ==> forall j :: from <= j < r.value ==> ss[j] == []
    ensures r.None? ==> forall j :: from <= j < |ss| ==> ss[j] == []
    decreases |ss| - from
  {
    if from == |ss| then None
    else if ss[from] != [] then Some(from)
    else FirstNonEmptyAt(ss, from + 1)
  }

  /** The index of the first family, at or after `from`, that has a survivor. */
  function FirstFamily(families: seq<seq<Candidate>>, from: nat): (r: Option<nat>)
    requires from <= |families|
    ensures r.Some? ==> from <= r.value < |families| && Surviving(families[r.value]) != []
    ensures r.Some? ==> forall j :: from <= j < r.value ==> Surviving(families[j]) == []
    ensures r.None? ==> forall j :: from <= j < |families| ==> Surviving(families[j]) == []
  {
    FirstNonEmptyAt(SurvivorsOf(families), from)
  }

  /** The secondary container's survivors, or none without a container. */
  function SecondarySurviving(secondary: Option<seq<Candidate>>): seq<Candidate> {
    if secondary.Some? then Surviving(secondary.value) else []
  }

  lemma FirstFamilyIsLeast(families: seq<seq<Candidate>>, k: int)
    requires 0 <= k < |families| && Surviving(families[k]) != []
    requires forall j :: 0 <= j < k ==> Surviving(families[j]) == []
    ensures FirstFamily(families, 0) == Some(k)
  {
    FirstNonEmptyFrom(SurvivorsOf(families), 0, k);
  }

  lemma {:induction false} FirstNonEmptyFrom(ss: seq<seq<Candidate>>, from: nat, k: nat)
    requires from <= k < |ss| && ss[k] != []
    requires forall j :: from <= j < k ==> ss[j] == []
    ensures FirstNonEmptyAt(ss, from) == Some(k)
    decreases k - from
  {
    if from < k {
      FirstNonEmptyFrom(ss, from + 1, k);
    }
  }

  /** No snippet selector left a node. */
  predicate NoSnippet(row: SidebarRow) {
    forall k :: 0 <= k < |row.snippetFamilies| ==> Surviving(row.snippetFamilies[k]) == []
  }

  /**
   * `getSidebarPreviewNodes`: the first snippet family with a surviving node,
   * else the secondary container's survivors, else at most three generic
   * candidates of at most 160 characters that are not the title node.
   */
  function PreviewNodes(row: SidebarRow): (r: seq<Candidate>)
    ensures forall c | c in r :: Survives(c.text)
    ensures forall k | 0 <= k < |row.snippetFamilies| && Surviving(row.snippetFamilies[k]) != [] &&
      (forall j :: 0 <= j < k ==> Surviving(row.snippetFamilies[j]) == []) ::
        r == Surviving(row.snippetFamilies[k])
    ensures NoSnippet(row) && SecondarySurviving(row.secondary) != [] ==>
      r == SecondarySurviving(row.secondary)
    ensures NoSnippet(row) && SecondarySurviving(row.secondary) == [] ==>
      r == Take3(GenericSurviving(row.generic, row.titleNode))
  {
    assert forall k | 0 <= k < |row.snippetFamilies| && Surviving(row.snippetFamilies[k]) != [] &&
      (forall j :: 0 <= j < k ==> Surviving(row.snippetFamilies[j]) == []) ::
        FirstFamily(row.snippetFamilies, 0) == Some(k) by {
      forall k | 0 <= k < |row.snippetFamilies| && Surviving(row.snippetFamilies[k]) != [] &&
        (forall j :: 0 <= j < k ==> Surviving(row.snippetFamilies[j]) == [])
        ensures FirstFamily(row.snippetFamilies, 0) == Some(k)
      {
        FirstFamilyIsLeast(row.snippetFamilies, k);
      }
    }
    match FirstFamily(row.snippetFamilies, 0)
    case Some(k) => Surviving(row.snippetFamilies[k])
    case None =>
      var secondary := SecondarySurviving(row.secondary);
      if secondary != [] then secondary
      else
        var r := Take3(GenericSurviving(row.generic, row.titleNode));
        assert forall c | c in r :: c in GenericSurviving(row.generic, row.titleNode) by {
          forall c | c in r ensures c in GenericSurviving(row.generic, row.titleNode) {
            var i :| 0 <= i < |r| && r[i] == c;
          }
        }
        r
  }

  /** The last resort never conceals more than three nodes, none over 160 characters, never the title. */
  lemma FallbackBounded(row: SidebarRow)
    requires NoSnippet(row) && SecondarySurviving(row.secondary) == []
    ensures |PreviewNodes(row)| <= 3
    ensures forall c | c in PreviewNodes(row) ::
      c in row.generic && |Trim(c.text)| <= MaxPreviewLength && !(row.titleNode.Some? && c.node == row.titleNode.value.node)
  {
    var g := GenericSurviving(row.generic, row.titleNode);
    forall c | c in PreviewNodes(row)
      ensures c in row.generic && |Trim(c.text)| <= MaxPreviewLength
      ensures !(row.titleNode.Some? && c.node == row.titleNode.value.node)
    {
      var i :| 0 <= i < |PreviewNodes(row)| && PreviewNodes(row)[i] == c;
      assert c == g[i] && g[i] in g;
    }
  }

  /** The texts of the preview nodes, `textContent || ""`. */
  function Texts(cs: seq<Candidate>): (r: seq<string>)
    ensures |r| == |cs| && forall i :: 0 <= i < |cs| ==> r[i] == cs[i].text
  {
    seq(|cs|, i requires 0 <= i < |cs| => cs[i].text)
  }

  /** `getSidebarPreviewText`: the normalised join of the preview nodes' texts. */
  function PreviewText(row: SidebarRow): (r: string)
    ensures Trimmed(r) && IsLowerCase(r)
  {
    Normalize(Join(Texts(PreviewNodes(row)), " "))
  }

  /** A keyword found in one preview node's normalised text is found in the row's preview text. */
  lemma PreviewTextHoldsNode(row: SidebarRow, i: int, keyword: string)
    requires 0 <= i < |PreviewNodes(row)|
    requires IsKeyword(keyword) && Contains(Normalize(PreviewNodes(row)[i].text), keyword)
    ensures Contains(PreviewText(row), keyword)
  {
    var texts := Texts(PreviewNodes(row));
    var joined := Join(texts, " ");
    var text := texts[i];
    JoinContains(texts, " ", i);
    LowerContains(joined, text);
    TrimContained(text);
    LowerContains(text, Trim(text));
    ContainsTransitive(ToLower(joined), ToLower(text), ToLower(Trim(text)));
    ContainsTransitive(ToLower(joined), ToLower(Trim(text)), keyword);
    ContainsTrim(ToLower(joined), keyword);
    LowerTrim(joined);
  }

  // ---------------------------------------------------------------------------
  // getSidebarRows

  /** A row that has a title or a secondary line; only those are kept. */
  predicate Listed(row: SidebarRow) {
    row.hasTitle || row.hasSecondary
  }

  /** The de-duplicated rows, given the elements already taken. */
  function DedupFrom(rows: seq<SidebarRow>, seen: set<Node>): seq<SidebarRow>
    decreases |rows|
  {
    if rows == [] then []
    else if rows[0].element in seen then DedupFrom(rows[1..], seen)
    else if Listed(rows[0]) then [rows[0]] + DedupFrom(rows[1..], seen + {rows[0].element})
    else DedupFrom(rows[1..], seen)
  }

  /** The de-duplicated list `getSidebarRows` returns for the resolved rows. */
  function Dedup(rows: seq<SidebarRow>): seq<SidebarRow> {
    DedupFrom(rows, {})
  }

  lemma {:induction false} DedupFromSubset(rows: seq<SidebarRow>, seen: set<Node>)
    ensures forall r | r in DedupFrom(rows, seen) :: r in rows && Listed(r) && r.element !in seen
    decreases |rows|
  {
    if rows != [] {
      assert rows == [rows[0]] + rows[1..];
      DedupFromSubset(rows[1..], seen);
      DedupFromSubset(rows[1..], seen + {rows[0].element});
    }
  }

  lemma {:induction false} DedupFromDistinct(rows: seq<SidebarRow>, seen: set<Node>)
    ensures forall i, j :: 0 <= i < j < |DedupFrom(rows, seen)| ==>
      DedupFrom(rows, seen)[i].element != DedupFrom(rows, seen)[j].element
    decreases |rows|
  {
    if rows != [] {
      var head, tail := rows[0], rows[1..];
      if head.element in seen || !Listed(head) {
        DedupFromDistinct(tail, seen);
      } else {
        var seen' := seen + {head.element};
        var rest := DedupFrom(tail, seen');
        DedupFromDistinct(tail, seen');
        DedupFromSubset(tail, seen');
        var out := DedupFrom(rows, seen);
        assert out == [head] + rest;
        forall i, j | 0 <= i < j < |out| ensures out[i].element != out[j].element {
          if i == 0 {
            assert out[j] == rest[j - 1];
            assert rest[j - 1] in rest;
          } else {
            assert out[i] == rest[i - 1] && out[j] == rest[j - 1];
          }
        }
      }
    }
  }

  lemma {:induction false} DedupFromComplete(rows: seq<SidebarRow>, seen: set<Node>)
    ensures forall r | r in rows && Listed(r) && r.element !in seen ::
      exists q | q in DedupFrom(rows, seen) :: q.element == r.element
    decreases |rows|
  {
    if rows != [] {
      var head, tail := rows[0], rows[1..];
      assert rows == [head] + tail;
      if head.element in seen || !Listed(head) {
        DedupFromComplete(tail, seen);
      } else {
        var seen' := seen + {head.element};
        DedupFromComplete(tail, seen');
        var out := DedupFrom(rows, seen);
        assert out == [head] + DedupFrom(tail, seen');
        forall r | r in rows && Listed(r) && r.element !in seen
          ensures exists q | q in out :: q.element == r.element
        {
          if r.element == head.element {
            assert out[0] == head;
          } else {
            assert r in tail;
            var q :| q in DedupFrom(tail, seen') && q.element == r.element;
            assert q in out;
          }
        }
      }
    }
  }

  /**
   * The rows `getSidebarRows` keeps are listed rows of the input with pairwise
   * distinct elements, and every listed element is kept once.
   */
  lemma DedupCorrect(rows: seq<SidebarRow>)
    ensures forall r | r in Dedup(rows) :: r in rows && Listed(r)
    ensures forall i, j :: 0 <= i < j < |Dedup(rows)| ==> Dedup(rows)[i].element != Dedup(rows)[j].element
    ensures forall r | r in rows && Listed(r) :: exists q | q in Dedup(rows) :: q.element == r.element
  {
    DedupFromSubset(rows, {});
    DedupFromDistinct(rows, {});
    DedupFromComplete(rows, {});
  }

  /** The `seen`-set loop of `getSidebarRows`. */
  method DedupSidebarRows(rows: seq<SidebarRow>) returns (deduped: seq<SidebarRow>)
    ensures deduped == Dedup(rows)
  {
    deduped := [];
    var seen: set<Node> := {};
    for i := 0 to |rows|
      invariant deduped + DedupFrom(rows[i..], seen) == Dedup(rows)
    {
      var row := rows[i];
      assert rows[i..] == [row] + rows[i + 1..];
      if row.element in seen {
        continue;
      }
      if Listed(row) {
        seen := seen + {row.element};
        deduped := deduped + [row];
      }
    }
    assert rows[|rows|..] == [];
  }
}
