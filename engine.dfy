/**
 * The script's module-level state and its entry points: the settings, the
 * pending frame token of `scheduleApplyBlur`, the initial load, the storage
 * listener, and `applyBlur`, the pass that reconciles every target node.
 */
module Engine {
  import opened Js
  import opened Text
  import opened Conceal
  import opened Config
  import opened Extract
  import opened Policy

  // ---------------------------------------------------------------------------
  // the work of one pass

  /** The nodes of the candidates, in order. */
  function NodesOf(cs: seq<Candidate>): (r: seq<Node>)
    ensures |r| == |cs| && forall i :: 0 <= i < |cs| ==> r[i] == cs[i].node
  {
    seq(|cs|, i requires 0 <= i < |cs| => cs[i].node)
  }

  /** The preview targets of a sidebar row: its preview nodes, else its container if it has one. */
  function SidebarTargets(row: SidebarRow): (r: seq<Node>)
    ensures PreviewNodes(row) != [] ==>
      (|r| == |PreviewNodes(row)| && forall i :: 0 <= i < |r| ==> r[i] == PreviewNodes(row)[i].node)
    ensures PreviewNodes(row) == [] ==> r == if row.container.Some? then [row.container.value] else []
  {
    var nodes := PreviewNodes(row);
    if |nodes| > 0 then NodesOf(nodes)
    else if row.container.Some? then [row.container.value]
    else []
  }

  /** Each node paired with the same decision. */
  function WithDecision(nodes: seq<Node>, conceal: bool): (r: seq<(Node, bool)>)
    ensures |r| == |nodes| && forall i :: 0 <= i < |nodes| ==> r[i] == (nodes[i], conceal)
  {
    seq(|nodes|, i requires 0 <= i < |nodes| => (nodes[i], conceal))
  }

  /** The message loop of `applyBlur`: each row's target with its decision, in row order. */
  function MessageWork(s: Settings, rows: seq<MessageRow>, chatTitle: string): (r: seq<(Node, bool)>)
    ensures |r| == |rows|
    ensures forall i :: 0 <= i < |rows| ==> r[i] == (rows[i].target, ShouldBlurRow(s, rows[i], chatTitle))
  {
    seq(|rows|, i requires 0 <= i < |rows| => (rows[i].target, ShouldBlurRow(s, rows[i], chatTitle)))
  }

  /** Where group `j` starts once the groups are laid end to end: the size of the groups before it. */
  function Offset(groups: seq<seq<Node>>, j: nat): nat
    requires j <= |groups|
  {
    if j == 0 then 0 else Offset(groups, j - 1) + |groups[j - 1]|
  }

  lemma {:induction false} OffsetShift(groups: seq<seq<Node>>, j: nat)
    requires 1 <= j <= |groups|
    ensures Offset(groups, j) == |groups[0]| + Offset(groups[1..], j - 1)
    decreases j
  {
    if j > 1 {
      OffsetShift(groups, j - 1);
      assert groups[1..][j - 2] == groups[j - 1];
    }
  }

  /**
   * `r` visits every node of every group, group after group and each group in
   * order, pairing each node with its group's decision, and nothing else.
   */
  predicate LaysOut(groups: seq<seq<Node>>, decisions: seq<bool>, r: seq<(Node, bool)>)
    requires |groups| == |decisions|
  {
    && |r| == Offset(groups, |groups|)
    && forall j, m :: 0 <= j < |groups| && 0 <= m < |groups[j]| ==> PlacedAt(groups, decisions, r, j, m)
  }

  /** Node `m` of group `j` sits at its offset in `r`, with the group's decision. */
  predicate PlacedAt(groups: seq<seq<Node>>, decisions: seq<bool>, r: seq<(Node, bool)>, j: int, m: int)
    requires |groups| == |decisions| && 0 <= j < |groups| && 0 <= m < |groups[j]|
  {
    Offset(groups, j) + m < |r| && r[Offset(groups, j) + m] == (groups[j][m], decisions[j])
  }

  /** Laying out the first group in front of the layout of the others lays out all of them. */
  lemma LaysOutCons(groups: seq<seq<Node>>, decisions: seq<bool>, tail: seq<(Node, bool)>)
    requires |groups| == |decisions| && |groups| > 0
    requires LaysOut(groups[1..], decisions[1..], tail)
    ensures LaysOut(groups, decisions, WithDecision(groups[0], decisions[0]) + tail)
  {
    var r := WithDecision(groups[0], decisions[0]) + tail;
    OffsetShift(groups, |groups|);
    assert |r| == Offset(groups, |groups|) by {
      assert |groups[1..]| == |groups| - 1;
      assert |WithDecision(groups[0], decisions[0])| == |groups[0]|;
    }
    forall j, m | 0 <= j < |groups| && 0 <= m < |groups[j]|
      ensures PlacedAt(groups, decisions, r, j, m)
    {
      if j > 0 {
        ConsPlaces(groups, decisions, tail, j, m);
      } else {
        assert r[m] == WithDecision(groups[0], decisions[0])[m];
      }
    }
    assert LaysOut(groups, decisions, r);
  }

  /** A node of a later group sits where the layout of the others put it, shifted by the first group. */
  lemma ConsPlaces(groups: seq<seq<Node>>, decisions: seq<bool>, tail: seq<(Node, bool)>, j: int, m: int)
    requires |groups| == |decisions| && 0 < j < |groups| && 0 <= m < |groups[j]|
    requires LaysOut(groups[1..], decisions[1..], tail)
    ensures PlacedAt(groups, decisions, WithDecision(groups[0], decisions[0]) + tail, j, m)
  {
    OffsetShift(groups, j);
    var rest, ds := groups[1..], decisions[1..];
    assert rest[j - 1] == groups[j] && ds[j - 1] == decisions[j];
    assert rest[j - 1][m] == groups[j][m];
    assert PlacedAt(rest, ds, tail, j - 1, m);
  }

  /** Every visit of `r` is a node of some group, paired with that group's decision. */
  predicate FromGroups(groups: seq<seq<Node>>, decisions: seq<bool>, r: seq<(Node, bool)>)
    requires |groups| == |decisions|
  {
    forall i :: 0 <= i < |r| ==> GroupVisit(groups, decisions, r[i])
  }

  /** `v` visits a node of some group with that group's decision. */
  predicate GroupVisit(groups: seq<seq<Node>>, decisions: seq<bool>, v: (Node, bool))
    requires |groups| == |decisions|
  {
    exists j :: 0 <= j < |groups| && v.0 in groups[j] && v.1 == decisions[j]
  }

  lemma FromGroupsCons(groups: seq<seq<Node>>, decisions: seq<bool>, tail: seq<(Node, bool)>)
    requires |groups| == |decisions| && |groups| > 0
    requires FromGroups(groups[1..], decisions[1..], tail)
    ensures FromGroups(groups, decisions, WithDecision(groups[0], decisions[0]) + tail)
  {
    var head := WithDecision(groups[0], decisions[0]);
    var r := head + tail;
    forall i | 0 <= i < |r|
      ensures GroupVisit(groups, decisions, r[i])
    {
      if i < |head| {
        assert r[i].0 in groups[0] && r[i].1 == decisions[0];
      } else {
        assert r[i] == tail[i - |head|];
        assert GroupVisit(groups[1..], decisions[1..], tail[i - |head|]);
        var j :| 0 <= j < |groups[1..]| && tail[i - |head|].0 in groups[1..][j]
          && tail[i - |head|].1 == decisions[1..][j];
        assert groups[1..][j] == groups[j + 1] && decisions[1..][j] == decisions[j + 1];
      }
    }
  }

  /** Each group of nodes, in order, paired with its group's decision. */
  function Spread(groups: seq<seq<Node>>, decisions: seq<bool>): seq<(Node, bool)>
    requires |groups| == |decisions|
    decreases |groups|
  {
    if groups == [] then []
    else WithDecision(groups[0], decisions[0]) + Spread(groups[1..], decisions[1..])
  }

  /** Every node of every group is visited, at its place, with its group's decision. */
  lemma {:induction false} SpreadLaysOut(groups: seq<seq<Node>>, decisions: seq<bool>)
    requires |groups| == |decisions|
    ensures LaysOut(groups, decisions, Spread(groups, decisions))
    decreases |groups|
  {
    if groups == [] {
      assert Offset(groups, 0) == 0;
    } else {
      SpreadLaysOut(groups[1..], decisions[1..]);
      LaysOutCons(groups, decisions, Spread(groups[1..], decisions[1..]));
    }
  }

  /** One node of one group, at its place in the spread. */
  lemma SpreadPlaces(groups: seq<seq<Node>>, decisions: seq<bool>, j: int, m: int)
    requires |groups| == |decisions| && 0 <= j < |groups| && 0 <= m < |groups[j]|
    ensures var k := Offset(groups, j) + m;
      k < |Spread(groups, decisions)| && Spread(groups, decisions)[k] == (groups[j][m], decisions[j])
  {
    SpreadLaysOut(groups, decisions);
    assert PlacedAt(groups, decisions, Spread(groups, decisions), j, m);
  }

  /** Nothing but the groups' nodes is visited, each with its own group's decision. */
  lemma {:induction false} SpreadFromGroups(groups: seq<seq<Node>>, decisions: seq<bool>)
    requires |groups| == |decisions|
    ensures FromGroups(groups, decisions, Spread(groups, decisions))
    decreases |groups|
  {
    if groups != [] {
      SpreadFromGroups(groups[1..], decisions[1..]);
      FromGroupsCons(groups, decisions, Spread(groups[1..], decisions[1..]));
    }
  }

  /** The sidebar loop of `applyBlur`: each row's preview targets with the row's decision, row after row. */
  function SidebarWork(s: Settings, rows: seq<SidebarRow>): seq<(Node, bool)> {
    Spread(TargetGroups(rows), RowDecisions(s, rows))
  }

  /** Every preview target of every row is visited, at its place in row order, with its row's decision. */
  lemma SidebarWorkVisits(s: Settings, rows: seq<SidebarRow>, j: int, m: int)
    requires 0 <= j < |rows| && 0 <= m < |SidebarTargets(rows[j])|
    ensures var k := Offset(TargetGroups(rows), j) + m;
      k < |SidebarWork(s, rows)| &&
      SidebarWork(s, rows)[k] == (SidebarTargets(rows[j])[m], ShouldBlurSidebarRow(s, rows[j]))
  {
    var groups, decisions := TargetGroups(rows), RowDecisions(s, rows);
    assert groups[j][m] == SidebarTargets(rows[j])[m] && decisions[j] == ShouldBlurSidebarRow(s, rows[j]);
    SpreadPlaces(groups, decisions, j, m);
  }

  /** Every visit of `r` is a preview target of some row, with that row's decision. */
  predicate FromRows(s: Settings, rows: seq<SidebarRow>, r: seq<(Node, bool)>) {
    forall i :: 0 <= i < |r| ==> RowVisit(s, rows, r[i])
  }

  /** `v` visits a preview target of some row with that row's decision. */
  predicate RowVisit(s: Settings, rows: seq<SidebarRow>, v: (Node, bool)) {
    exists j :: 0 <= j < |rows| && v.0 in SidebarTargets(rows[j]) && v.1 == ShouldBlurSidebarRow(s, rows[j])
  }

  /** Every sidebar visit is a preview target of some row, with that row's decision. */
  lemma SidebarWorkSound(s: Settings, rows: seq<SidebarRow>)
    ensures FromRows(s, rows, SidebarWork(s, rows))
  {
    var r := Spread(TargetGroups(rows), RowDecisions(s, rows));
    SpreadFromGroups(TargetGroups(rows), RowDecisions(s, rows));
    RowsSound(s, rows, r);
    assert SidebarWork(s, rows) == r;
  }

  /** Visits drawn from the rows' target groups are visits of the rows themselves. */
  lemma RowsSound(s: Settings, rows: seq<SidebarRow>, r: seq<(Node, bool)>)
    requires FromGroups(TargetGroups(rows), RowDecisions(s, rows), r)
    ensures FromRows(s, rows, r)
  {
    var groups, decisions := TargetGroups(rows), RowDecisions(s, rows);
    forall i | 0 <= i < |r|
      ensures RowVisit(s, rows, r[i])
    {
      assert GroupVisit(groups, decisions, r[i]);
      var j :| 0 <= j < |groups| && r[i].0 in groups[j] && r[i].1 == decisions[j];
      assert groups[j] == SidebarTargets(rows[j]);
    }
  }

  function TargetGroups(rows: seq<SidebarRow>): (g: seq<seq<Node>>)
    ensures |g| == |rows| && forall j :: 0 <= j < |rows| ==> g[j] == SidebarTargets(rows[j])
  {
    seq(|rows|, j requires 0 <= j < |rows| => SidebarTargets(rows[j]))
  }

  function RowDecisions(s: Settings, rows: seq<SidebarRow>): (d: seq<bool>)
    ensures |d| == |rows| && forall j :: 0 <= j < |rows| ==> d[j] == ShouldBlurSidebarRow(s, rows[j])
  {
    seq(|rows|, j requires 0 <= j < |rows| => ShouldBlurSidebarRow(s, rows[j]))
  }

  /** Every visit of one pass, in order: message rows first, then the de-duplicated sidebar rows. */
  function PassWork(s: Settings, rows: seq<MessageRow>, chatTitle: string, sidebarRows: seq<SidebarRow>): seq<(Node, bool)> {
    PassVisits(s, rows, chatTitle, Dedup(sidebarRows))
  }

  /** The visits of one pass over message rows and already de-duplicated sidebar rows. */
  function PassVisits(s: Settings, rows: seq<MessageRow>, chatTitle: string, sidebar: seq<SidebarRow>): seq<(Node, bool)> {
    MessageWork(s, rows, chatTitle) + SidebarWork(s, sidebar)
  }

  /** The nodes a piece of work touches. */
  function Touched(work: seq<(Node, bool)>): set<Node> {
    set i | 0 <= i < |work| :: work[i].0
  }

  /** The decisions a node receives during the work, in order. */
  function DecisionsFor(n: Node, work: seq<(Node, bool)>): (r: seq<bool>)
    ensures n !in Touched(work) ==> r == []
    decreases |work|
  {
    if work == [] then []
    else
      var last := work[|work| - 1];
      assert Touched(work[..|work| - 1]) <= Touched(work) by {
        forall x | x in Touched(work[..|work| - 1]) ensures x in Touched(work) {
          var i :| 0 <= i < |work| - 1 && work[..|work| - 1][i].0 == x;
          assert work[i].0 == x;
        }
      }
      DecisionsFor(n, work[..|work| - 1]) + if last.0 == n then [last.1] else []
  }

  /** Extending the work by one visit extends each node's decisions by at most that visit's. */
  lemma DecisionsForSnoc(n: Node, work: seq<(Node, bool)>, k: int)
    requires 0 <= k < |work|
    ensures DecisionsFor(n, work[..k + 1]) ==
      DecisionsFor(n, work[..k]) + if work[k].0 == n then [work[k].1] else []
  {
    assert work[..k + 1][..k] == work[..k];
  }

  /**
   * The reconcile loops of `applyBlur`: each visit conceals or clears its node,
   * so every node ends as the fold of the decisions it received, in order.
   */
  method Reconcile(work: seq<(Node, bool)>, mode: ConcealMode)
    modifies Touched(work)
    ensures forall i :: 0 <= i < |work| ==>
      work[i].0.State() == Fold(old(work[i].0.State()), DecisionsFor(work[i].0, work), mode)
  {
    for k := 0 to |work|
      invariant forall i :: 0 <= i < |work| ==>
        work[i].0.State() == Fold(old(work[i].0.State()), DecisionsFor(work[i].0, work[..k]), mode)
    {
      var node, conceal := work[k].0, work[k].1;
      assert node in Touched(work);
      label before:
      if conceal {
        node.ApplyBlur(mode);
      } else {
        node.RemoveBlur();
      }
      assert node.State() == Step(old@before(node.State()), conceal, mode);
      forall i | 0 <= i < |work|
        ensures work[i].0.State() == Fold(old(work[i].0.State()), DecisionsFor(work[i].0, work[..k + 1]), mode)
      {
        var x := work[i].0;
        DecisionsForSnoc(x, work, k);
        assert old@before(x.State()) == Fold(old(x.State()), DecisionsFor(x, work[..k]), mode);
        if x == node {
          FoldAppend(old(x.State()), DecisionsFor(x, work[..k]), conceal, mode);
          assert DecisionsFor(x, work[..k + 1]) == DecisionsFor(x, work[..k]) + [conceal];
          assert x.State() == Step(old@before(x.State()), conceal, mode);
        } else {
          assert DecisionsFor(x, work[..k + 1]) == DecisionsFor(x, work[..k]);
          assert x.State() == old@before(x.State());
        }
      }
    }
    assert work[..|work|] == work;
  }

  // ---------------------------------------------------------------------------
  // the script's state

  class Engine {
    /** `settings`. */
    var settings: Settings
    /** `rafId !== null`: a pass has been requested and has not run yet. */
    var pending: bool
    /** How many frames `requestAnimationFrame` was asked for. */
    ghost var framesRequested: nat
    /** How many passes ran. */
    ghost var passesRun: nat

    /** Settings are always sanitised, and every requested frame has run but at most the one pending. */
    ghost predicate Valid()
      reads this
    {
      Canonical(settings) && framesRequested == passesRun + (if pending then 1 else 0)
    }

    /** The script's start: default settings with an empty keyword list, nothing pending. */
    constructor ()
      ensures Valid() && settings == Initial() && !pending
      ensures framesRequested == 0 && passesRun == 0
    {
      settings := Initial();
      pending := false;
      framesRequested := 0;
      passesRun := 0;
    }

    /** `scheduleApplyBlur`: request a frame unless one is already pending. */
    method Schedule()
      requires Valid()
      modifies this
      ensures Valid() && pending
      ensures settings == old(settings) && passesRun == old(passesRun)
      ensures framesRequested == old(framesRequested) + (if old(pending) then 0 else 1)
    {
      if pending {
        return;
      }
      pending := true;
      framesRequested := framesRequested + 1;
    }

    /**
     * The callback of `loadSettingsAndApply`: sanitise the stored values over
     * the defaults and schedule a pass; a throwing sanitise ends the callback.
     */
    method Load(stored: map<string, Value>)
      requires Valid()
      modifies this
      ensures Valid() && passesRun == old(passesRun)
      ensures Sanitize(WithDefaults(stored)).Ok? ==>
        && settings == Sanitize(WithDefaults(stored)).value && pending
        && framesRequested == old(framesRequested) + (if old(pending) then 0 else 1)
      ensures Sanitize(WithDefaults(stored)).TypeError? ==>
        settings == old(settings) && pending == old(pending) && framesRequested == old(framesRequested)
    {
      match Sanitize(WithDefaults(stored))
      case Ok(t) =>
        settings := t;
        Schedule();
      case TypeError =>
    }

    /** The `chrome.storage.onChanged` listener. */
    method StorageChanged(changes: map<string, Value>, area: string)
      requires Valid()
      modifies this
      ensures Valid() && passesRun == old(passesRun)
      ensures settings == OnChanged(old(settings), changes, area).0
      ensures OnChanged(old(settings), changes, area).1 ==>
        pending && framesRequested == old(framesRequested) + (if old(pending) then 0 else 1)
      ensures !OnChanged(old(settings), changes, area).1 ==>
        pending == old(pending) && framesRequested == old(framesRequested)
    {
      var (t, scheduled) := OnChanged(settings, changes, area);
      settings := t;
      if scheduled {
        Schedule();
      }
    }

    /**
     * `applyBlur`, run by the requested frame: clear the token first, then
     * decide every message row and every de-duplicated sidebar row under the
     * current settings and reconcile their nodes.
     */
    method RunPass(rows: seq<MessageRow>, chatTitle: string, sidebarRows: seq<SidebarRow>)
      requires Valid() && pending
      modifies this, Touched(PassWork(settings, rows, chatTitle, sidebarRows))
      ensures Valid() && !pending
      ensures settings == old(settings) && framesRequested == old(framesRequested)
      ensures passesRun == old(passesRun) + 1
      ensures var work := PassWork(settings, rows, chatTitle, sidebarRows);
        forall i :: 0 <= i < |work| ==>
          work[i].0.State() == Fold(old(work[i].0.State()), DecisionsFor(work[i].0, work), settings.concealMode)
    {
      ghost var planned := PassWork(settings, rows, chatTitle, sidebarRows);
      assert allocated(planned);
      var deduped := DedupSidebarRows(sidebarRows);
      var work := PassVisits(settings, rows, chatTitle, deduped);
      assert work == planned;
      pending := false;
      passesRun := passesRun + 1;
      Reconcile(work, settings.concealMode);
    }
  }

  /** Visit `j` is the last visit of `n`. */
  predicate LastVisit(n: Node, work: seq<(Node, bool)>, j: int) {
    0 <= j < |work| && work[j].0 == n && forall k :: j < k < |work| ==> work[k].0 != n
  }

  /** The index of the last visit of `n`, or -1 when the work never visits it. */
  function LastIndex(n: Node, work: seq<(Node, bool)>): int
    decreases |work|
  {
    if work == [] then -1
    else if work[|work| - 1].0 == n then |work| - 1
    else LastIndex(n, work[..|work| - 1])
  }

  /** The last visit of a node decides its last decision. */
  lemma {:induction false} LastVisitDecides(n: Node, work: seq<(Node, bool)>, i: int)
    requires 0 <= i < |work| && work[i].0 == n
    ensures DecisionsFor(n, work) != []
    ensures LastVisit(n, work, LastIndex(n, work))
    ensures DecisionsFor(n, work)[|DecisionsFor(n, work)| - 1] == work[LastIndex(n, work)].1
    decreases |work|
  {
    var last := |work| - 1;
    var init := work[..last];
    if work[last].0 != n {
      assert i < last && init[i] == work[i];
      LastVisitDecides(n, init, i);
      LastVisitExtends(n, work, LastIndex(n, init));
    } else {
      assert DecisionsFor(n, work) == DecisionsFor(n, init) + [work[last].1];
    }
  }

  /** A visit that is the last one before a visit of another node stays the last. */
  lemma LastVisitExtends(n: Node, work: seq<(Node, bool)>, j: int)
    requires |work| > 0 && work[|work| - 1].0 != n
    requires LastVisit(n, work[..|work| - 1], j)
    ensures LastVisit(n, work, j) && DecisionsFor(n, work) == DecisionsFor(n, work[..|work| - 1])
    ensures work[j] == work[..|work| - 1][j]
  {
    assert work[j] == work[..|work| - 1][j];
  }

  /** With the extension disabled, every visit of a pass clears its node. */
  lemma DisabledPassDecidesNothing(s: Settings, rows: seq<MessageRow>, chatTitle: string,
                                   sidebarRows: seq<SidebarRow>)
    requires !s.enabled
    ensures var work := PassWork(s, rows, chatTitle, sidebarRows);
      forall i :: 0 <= i < |work| ==> !work[i].1
  {
    DisabledMessagesClear(s, rows, chatTitle);
    DisabledSidebarClears(s, Dedup(sidebarRows));
    NoConcealInConcat(MessageWork(s, rows, chatTitle), SidebarWork(s, Dedup(sidebarRows)));
  }

  lemma NoConcealInConcat(a: seq<(Node, bool)>, b: seq<(Node, bool)>)
    requires forall i :: 0 <= i < |a| ==> !a[i].1
    requires forall i :: 0 <= i < |b| ==> !b[i].1
    ensures forall i :: 0 <= i < |a + b| ==> !(a + b)[i].1
  {
  }

  lemma DisabledMessagesClear(s: Settings, rows: seq<MessageRow>, chatTitle: string)
    requires !s.enabled
    ensures forall i :: 0 <= i < |MessageWork(s, rows, chatTitle)| ==> !MessageWork(s, rows, chatTitle)[i].1
  {
  }

  lemma DisabledSidebarClears(s: Settings, rows: seq<SidebarRow>)
    requires !s.enabled
    ensures forall i :: 0 <= i < |SidebarWork(s, rows)| ==> !SidebarWork(s, rows)[i].1
  {
    var ss := SidebarWork(s, rows);
    SidebarWorkSound(s, rows);
    forall i | 0 <= i < |ss| ensures !ss[i].1 {
      assert RowVisit(s, rows, ss[i]);
      var j :| 0 <= j < |rows| && ss[i].0 in SidebarTargets(rows[j]) && ss[i].1 == ShouldBlurSidebarRow(s, rows[j]);
    }
  }

  /** With the extension disabled, a pass leaves every node it visits plain. */
  lemma DisabledPassClears(s: Settings, rows: seq<MessageRow>, chatTitle: string,
                           sidebarRows: seq<SidebarRow>, n: Node, before: NodeState)
    requires !s.enabled
    requires n in Touched(PassWork(s, rows, chatTitle, sidebarRows))
    ensures var ds := DecisionsFor(n, PassWork(s, rows, chatTitle, sidebarRows));
      LookOf(Fold(before, ds, s.concealMode)) == Plain
  {
    var work := PassWork(s, rows, chatTitle, sidebarRows);
    DisabledPassDecidesNothing(s, rows, chatTitle, sidebarRows);
    var i :| 0 <= i < |work| && work[i].0 == n;
    LastVisitDecides(n, work, i);
    FoldLook(before, DecisionsFor(n, work), s.concealMode);
  }

  /** Every visit of `n` in the work conceals it. */
  predicate OnlyConcealed(n: Node, work: seq<(Node, bool)>) {
    forall i :: 0 <= i < |work| && work[i].0 == n ==> work[i].1
  }

  /** A node only ever visited to conceal receives no decision to clear. */
  lemma {:induction false} OnlyConcealedDecisions(n: Node, work: seq<(Node, bool)>)
    requires OnlyConcealed(n, work)
    ensures false !in DecisionsFor(n, work)
    decreases |work|
  {
    if work != [] {
      var init := work[..|work| - 1];
      assert OnlyConcealed(n, init) by {
        forall i | 0 <= i < |init| && init[i].0 == n ensures init[i].1 {
          assert init[i] == work[i];
        }
      }
      OnlyConcealedDecisions(n, init);
    }
  }

  /**
   * A node visited, and only ever to conceal it, ends concealed in the
   * current mode, or revealed if the user had revealed it before the pass.
   */
  lemma ConcealedAfterWork(work: seq<(Node, bool)>, n: Node, before: NodeState, mode: ConcealMode)
    requires n in Touched(work) && OnlyConcealed(n, work)
    ensures LookOf(Fold(before, DecisionsFor(n, work), mode)) ==
      if RevealClass in before.classes then Revealed else ConcealedLook(mode)
  {
    var ds := DecisionsFor(n, work);
    var i :| 0 <= i < |work| && work[i].0 == n;
    LastVisitDecides(n, work, i);
    OnlyConcealedDecisions(n, work);
    assert ds[|ds| - 1];
    FoldSettles(before, ds, mode);
    AppliedLook(before, mode);
  }

  /**
   * A preview target of a de-duplicated sidebar row is visited by the pass,
   * and when every row that shows it (message or sidebar) decides to conceal,
   * it ends concealed, or revealed if the user had revealed it.
   */
  lemma SidebarTargetConcealed(s: Settings, rows: seq<MessageRow>, chatTitle: string,
                               sidebarRows: seq<SidebarRow>, j: int, m: int, before: NodeState)
    requires 0 <= j < |Dedup(sidebarRows)| && 0 <= m < |SidebarTargets(Dedup(sidebarRows)[j])|
    requires forall i :: 0 <= i < |rows| && rows[i].target == SidebarTargets(Dedup(sidebarRows)[j])[m] ==>
      ShouldBlurRow(s, rows[i], chatTitle)
    requires forall q :: 0 <= q < |Dedup(sidebarRows)| ==>
      (SidebarTargets(Dedup(sidebarRows)[j])[m] in SidebarTargets(Dedup(sidebarRows)[q]) ==>
       ShouldBlurSidebarRow(s, Dedup(sidebarRows)[q]))
    ensures var n := SidebarTargets(Dedup(sidebarRows)[j])[m];
      var work := PassWork(s, rows, chatTitle, sidebarRows);
      && n in Touched(work)
      && LookOf(Fold(before, DecisionsFor(n, work), s.concealMode)) ==
         if RevealClass in before.classes then Revealed else ConcealedLook(s.concealMode)
  {
    var deduped := Dedup(sidebarRows);
    var n := SidebarTargets(deduped[j])[m];
    var work := PassVisits(s, rows, chatTitle, deduped);
    PassVisitsTouches(s, rows, chatTitle, deduped, j, m);
    PassVisitsOnlyConceal(s, rows, chatTitle, deduped, n);
    ConcealedAfterWork(work, n, before, s.concealMode);
  }

  /** A pass visits every preview target of every sidebar row. */
  lemma PassVisitsTouches(s: Settings, rows: seq<MessageRow>, chatTitle: string,
                          sidebar: seq<SidebarRow>, j: int, m: int)
    requires 0 <= j < |sidebar| && 0 <= m < |SidebarTargets(sidebar[j])|
    ensures SidebarTargets(sidebar[j])[m] in Touched(PassVisits(s, rows, chatTitle, sidebar))
  {
    var groups := TargetGroups(sidebar);
    SpreadTouches(MessageWork(s, rows, chatTitle), groups, RowDecisions(s, sidebar), j, m);
    assert groups[j][m] == SidebarTargets(sidebar[j])[m];
  }

  /** Whatever comes before it, a spread visits every node of every group. */
  lemma SpreadTouches(prefix: seq<(Node, bool)>, groups: seq<seq<Node>>, decisions: seq<bool>, j: int, m: int)
    requires |groups| == |decisions| && 0 <= j < |groups| && 0 <= m < |groups[j]|
    ensures groups[j][m] in Touched(prefix + Spread(groups, decisions))
  {
    var r := Spread(groups, decisions);
    SpreadPlaces(groups, decisions, j, m);
    var k := Offset(groups, j) + m;
    assert (prefix + r)[|prefix| + k] == r[k];
  }

  /** A node every row showing which decides to conceal is only ever visited to conceal it. */
  lemma PassVisitsOnlyConceal(s: Settings, rows: seq<MessageRow>, chatTitle: string,
                              sidebar: seq<SidebarRow>, n: Node)
    requires forall i :: 0 <= i < |rows| && rows[i].target == n ==> ShouldBlurRow(s, rows[i], chatTitle)
    requires forall q :: 0 <= q < |sidebar| && n in SidebarTargets(sidebar[q]) ==> ShouldBlurSidebarRow(s, sidebar[q])
    ensures OnlyConcealed(n, PassVisits(s, rows, chatTitle, sidebar))
  {
    var messages := MessageWork(s, rows, chatTitle);
    var groups, decisions := TargetGroups(sidebar), RowDecisions(s, sidebar);
    assert OnlyConcealed(n, messages);
    SpreadOnlyConceals(messages, groups, decisions, n);
  }

  /** Visits drawn from groups that all decide to conceal `n` do not clear it. */
  lemma SpreadOnlyConceals(prefix: seq<(Node, bool)>, groups: seq<seq<Node>>, decisions: seq<bool>, n: Node)
    requires |groups| == |decisions| && OnlyConcealed(n, prefix)
    requires forall q :: 0 <= q < |groups| && n in groups[q] ==> decisions[q]
    ensures OnlyConcealed(n, prefix + Spread(groups, decisions))
  {
    var r := Spread(groups, decisions);
    var work := prefix + r;
    SpreadFromGroups(groups, decisions);
    forall i | 0 <= i < |work| && work[i].0 == n ensures work[i].1 {
      if i >= |prefix| {
        assert work[i] == r[i - |prefix|];
        assert GroupVisit(groups, decisions, r[i - |prefix|]);
      }
    }
  }

  /**
   * Running a pass again over an unchanged page and unchanged settings
   * leaves every node as the first run left it.
   */
  lemma PassIdempotent(work: seq<(Node, bool)>, before: NodeState, n: Node, mode: ConcealMode)
    ensures var once := Fold(before, DecisionsFor(n, work), mode);
      Fold(once, DecisionsFor(n, work), mode) == once
  {
    FoldIdempotent(before, DecisionsFor(n, work), mode);
  }
}
