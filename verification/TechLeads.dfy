/** The stage-dependent rules about who may approve a SIG Node KEP. */
module TechLeads {
  import opened NodeApprovers
  import opened Options
  import opened Releases
  import opened Text

  /** Milestones before this minor version are exempt. */
  const MIN_ENFORCED_MINOR := 36

  /** A listed approver: the normalized handle, and whether it is marked as assigned. */
  datatype Entry = Entry(user: string, marked: bool)

  datatype Metadata = Metadata(status: string, stage: string, milestone: string, entries: seq<Entry>)

  datatype Finding = NoApprovers | NoTechLead | MarkedNonLead(user: string) | NeitherLeadNorMarked

  // ----- reading the metadata -----

  /** The trimmed value of a scalar, or nothing. */
  function ScalarText(node: Option<string>): string {
    if node.None? then "" else TrimSpace(node.value)
  }

  /** A scalar reads as its text without the white space around it. */
  lemma ScalarReadBack(pad: string, t: string, pad': string)
    requires Blank(pad) && Trimmed(t) && Blank(pad')
    ensures ScalarText(Some(pad + t + pad')) == t && ScalarText(None) == ""
  {
    TrimPadded(pad, t, pad');
  }

  ghost function EntriesOf(items: seq<Item>): seq<Entry> {
    if items == [] then []
    else
      var last := items[|items| - 1];
      EntriesOf(items[..|items| - 1])
      + if last.scalar then [Entry(NormalizeUser(last.value), Marked(APPROVER_MARKER)(last))] else []
  }

  method ReadMetadata(status: Option<string>, stage: Option<string>, milestone: Option<string>,
                      approvers: Option<seq<Item>>)
    returns (meta: Metadata)
    ensures meta == Metadata(ScalarText(status), ScalarText(stage), ScalarText(milestone),
                             EntriesOf(ItemsOf(approvers)))
  {
    var entries: seq<Entry> := [];
    if approvers.Some? {
      var items := approvers.value;
      for i := 0 to |items|
        invariant entries == EntriesOf(items[..i])
      {
        assert items[..i + 1][..i] == items[..i];
        if items[i].scalar {
          entries := entries + [Entry(NormalizeUser(items[i].value), MarkerOf(items[i].comment) == APPROVER_MARKER)];
        }
      }
      assert items[..|items|] == items;
    }
    meta := Metadata(ScalarText(status), ScalarText(stage), ScalarText(milestone), entries);
  }

  function HandlesOf(entries: seq<Entry>, onlyMarked: bool): seq<string> {
    if entries == [] then []
    else
      var last := entries[|entries| - 1];
      HandlesOf(entries[..|entries| - 1], onlyMarked) + if onlyMarked ==> last.marked then [last.user] else []
  }

  /** Both verifications of a kep.yaml see the same approvers: the entries hold the listed
      handles, and the marked entries hold the annotated ones, in order. */
  lemma {:induction false} EntriesAgree(items: seq<Item>)
    ensures HandlesOf(EntriesOf(items), false) == Users(items, Any())
    ensures HandlesOf(EntriesOf(items), true) == Users(items, Marked(APPROVER_MARKER))
    decreases |items|
  {
    if items != [] {
      var last, rest := items[|items| - 1], items[..|items| - 1];
      EntriesAgree(rest);
      if last.scalar {
        var e := Entry(NormalizeUser(last.value), Marked(APPROVER_MARKER)(last));
        assert (EntriesOf(rest) + [e])[..|EntriesOf(rest)|] == EntriesOf(rest);
      } else {
        assert EntriesOf(items) == EntriesOf(rest);
      }
    }
  }

  // ----- the rules -----

  /** Some listed approver is a tech lead. */
  ghost predicate ListsLead(entries: seq<Entry>, techLeads: set<string>) {
    exists i :: 0 <= i < |entries| && entries[i].user in techLeads
  }

  /** Some listed approver is marked as assigned. */
  ghost predicate ListsMarked(entries: seq<Entry>) {
    exists i :: 0 <= i < |entries| && entries[i].marked
  }

  /** Every marked approver is a tech lead. */
  ghost predicate MarksOnlyLeads(entries: seq<Entry>, techLeads: set<string>) {
    forall i :: 0 <= i < |entries| && entries[i].marked ==> entries[i].user in techLeads
  }

  predicate Inactive(status: string) {
    status == "withdrawn" || status == "rejected" || status == "replaced"
  }

  predicate Exempt(meta: Metadata) {
    Inactive(meta.status) || ParseMilestoneMinor(meta.milestone) < MIN_ENFORCED_MINOR
  }

  /** In the alpha stage, and not from a past cycle. */
  predicate ActivelyAlpha(meta: Metadata, upcomingMinor: int) {
    meta.stage == "alpha" && ParseMilestoneMinor(meta.milestone) >= upcomingMinor
  }

  ghost function MarkedNonLeads(entries: seq<Entry>, techLeads: set<string>): seq<Finding> {
    if entries == [] then []
    else
      var last := entries[|entries| - 1];
      MarkedNonLeads(entries[..|entries| - 1], techLeads)
      + if last.marked && last.user !in techLeads then [MarkedNonLead(last.user)] else []
  }

  ghost function AlphaFindings(entries: seq<Entry>, techLeads: set<string>): seq<Finding> {
    (if ListsLead(entries, techLeads) then [] else [NoTechLead]) + MarkedNonLeads(entries, techLeads)
  }

  ghost function LaterFindings(entries: seq<Entry>, techLeads: set<string>): seq<Finding> {
    if ListsLead(entries, techLeads) || ListsMarked(entries) then [] else [NeitherLeadNorMarked]
  }

  /** All findings about a KEP, in the order they are reported. */
  ghost function Findings(meta: Metadata, techLeads: set<string>, upcomingMinor: int): seq<Finding> {
    if Exempt(meta) then []
    else if meta.entries == [] then [NoApprovers]
    else if ActivelyAlpha(meta, upcomingMinor) then AlphaFindings(meta.entries, techLeads)
    else LaterFindings(meta.entries, techLeads)
  }

  method ScanEntries(entries: seq<Entry>, techLeads: set<string>) returns (hasTechLead: bool, hasMarked: bool)
    ensures hasTechLead <==> ListsLead(entries, techLeads)
    ensures hasMarked <==> ListsMarked(entries)
  {
    hasTechLead, hasMarked := false, false;
    for i := 0 to |entries|
      invariant hasTechLead <==> exists k :: 0 <= k < i && entries[k].user in techLeads
      invariant hasMarked <==> exists k :: 0 <= k < i && entries[k].marked
    {
      if entries[i].user in techLeads {
        hasTechLead := true;
      }
      if entries[i].marked {
        hasMarked := true;
      }
    }
  }

  method MarkedNonLeadsLoop(entries: seq<Entry>, techLeads: set<string>) returns (violations: seq<Finding>)
    ensures violations == MarkedNonLeads(entries, techLeads)
  {
    violations := [];
    for i := 0 to |entries|
      invariant violations == MarkedNonLeads(entries[..i], techLeads)
    {
      assert entries[..i + 1][..i] == entries[..i];
      if entries[i].marked && entries[i].user !in techLeads {
        violations := violations + [MarkedNonLead(entries[i].user)];
      }
    }
    assert entries[..|entries|] == entries;
  }

  method VerifyTechLeadApprovers(meta: Metadata, techLeads: set<string>, upcomingMinor: int)
    returns (violations: seq<Finding>)
    ensures violations == Findings(meta, techLeads, upcomingMinor)
  {
    if Inactive(meta.status) {
      return [];
    }
    if ParseMilestoneMinor(meta.milestone) < MIN_ENFORCED_MINOR {
      return [];
    }
    var entries := meta.entries;
    if |entries| == 0 {
      return [NoApprovers];
    }
    var hasTechLead, hasMarked := ScanEntries(entries, techLeads);
    if ActivelyAlpha(meta, upcomingMinor) {
      violations := if hasTechLead then [] else [NoTechLead];
      var named := MarkedNonLeadsLoop(entries, techLeads);
      violations := violations + named;
      return;
    }
    violations := if !hasTechLead && !hasMarked then [NeitherLeadNorMarked] else [];
  }

  // ----- when a KEP passes -----

  lemma {:induction false} NoMarkedNonLeads(entries: seq<Entry>, techLeads: set<string>)
    ensures MarkedNonLeads(entries, techLeads) == [] <==> MarksOnlyLeads(entries, techLeads)
    decreases |entries|
  {
    if entries != [] {
      var rest := entries[..|entries| - 1];
      NoMarkedNonLeads(rest, techLeads);
      assert forall i :: 0 <= i < |rest| ==> rest[i] == entries[i];
    }
  }

  /** For every input: a KEP passes when it is exempt, or a tech lead approves and, while it
      is actively alpha, only tech leads are marked; later, a marked approver will do. */
  lemma PassesRulesExactlyWhen(meta: Metadata, techLeads: set<string>, upcomingMinor: int)
    ensures var minor := ParseMilestoneMinor(meta.milestone);
      var activelyAlpha := meta.stage == "alpha" && minor >= upcomingMinor;
      Findings(meta, techLeads, upcomingMinor) == [] <==>
      (meta.status == "withdrawn" || meta.status == "rejected" || meta.status == "replaced" || minor < 36
       || (activelyAlpha && ListsLead(meta.entries, techLeads) && MarksOnlyLeads(meta.entries, techLeads))
       || (!activelyAlpha && (ListsLead(meta.entries, techLeads) || ListsMarked(meta.entries))))
  {
    NoMarkedNonLeads(meta.entries, techLeads);
  }

  /** A user is named by a finding exactly when marked without being a tech lead. */
  lemma {:induction false} NamedExactlyWhen(entries: seq<Entry>, techLeads: set<string>, u: string)
    ensures MarkedNonLead(u) in MarkedNonLeads(entries, techLeads) <==>
      (u !in techLeads && Entry(u, true) in entries)
    decreases |entries|
  {
    if entries != [] {
      var last, rest := entries[|entries| - 1], entries[..|entries| - 1];
      NamedExactlyWhen(rest, techLeads, u);
      assert entries == rest + [last];
    }
  }

  // ----- what relaxes the rules -----

  lemma {:induction false} MoreLeadsFewerNamed(entries: seq<Entry>, techLeads: set<string>, more: set<string>)
    requires techLeads <= more
    ensures IsSubsequence(MarkedNonLeads(entries, more), MarkedNonLeads(entries, techLeads))
    decreases |entries|
  {
    if entries != [] {
      var last, rest := entries[|entries| - 1], entries[..|entries| - 1];
      MoreLeadsFewerNamed(rest, techLeads, more);
      var a, b, f := MarkedNonLeads(rest, more), MarkedNonLeads(rest, techLeads), MarkedNonLead(last.user);
      assert (b + [f])[..|b|] == b && (a + [f])[..|a|] == a;
      assert a + [] == a && b + [] == b;
    }
  }

  lemma {:induction false} SubsequenceOfLonger<T>(p: seq<T>, a: seq<T>, b: seq<T>)
    requires IsSubsequence(a, b)
    ensures IsSubsequence(a, p + b)
    decreases |b|
  {
    if a != [] {
      assert (p + b)[..|p + b| - 1] == p + b[..|b| - 1];
      if a[|a| - 1] == b[|b| - 1] && IsSubsequence(a[..|a| - 1], b[..|b| - 1]) {
        SubsequenceOfLonger(p, a[..|a| - 1], b[..|b| - 1]);
      } else {
        SubsequenceOfLonger(p, a, b[..|b| - 1]);
      }
    }
  }

  /** Naming more tech leads only removes findings. */
  lemma MoreLeadsFewerFindings(meta: Metadata, techLeads: set<string>, more: set<string>, upcomingMinor: int)
    requires techLeads <= more
    ensures IsSubsequence(Findings(meta, more, upcomingMinor), Findings(meta, techLeads, upcomingMinor))
  {
    var entries := meta.entries;
    if Exempt(meta) || entries == [] || !ActivelyAlpha(meta, upcomingMinor) {
      SubsequenceSelf(Findings(meta, techLeads, upcomingMinor));
    } else {
      var a, b := MarkedNonLeads(entries, more), MarkedNonLeads(entries, techLeads);
      MoreLeadsFewerNamed(entries, techLeads, more);
      SubsequenceAfter([NoTechLead], a, b);
      SubsequenceOfLonger([NoTechLead], a, b);
      assert [] + a == a && [] + b == b;
    }
  }

  /** A later upcoming release relaxes the rules: there are never more findings, and a KEP that
      passes still passes. */
  lemma LaterReleaseFewerFindings(meta: Metadata, techLeads: set<string>, upcoming: int, later: int)
    requires upcoming <= later
    ensures |Findings(meta, techLeads, later)| <= |Findings(meta, techLeads, upcoming)|
  {
    NoMarkedNonLeads(meta.entries, techLeads);
  }

  /** With an upcoming release beyond every milestone nothing is strictly enforced: the answer
      is the one for a KEP past alpha, whatever the stage. */
  lemma FarReleaseIsRelaxed(meta: Metadata, techLeads: set<string>, upcomingMinor: int, stage: string)
    requires upcomingMinor > ParseMilestoneMinor(meta.milestone)
    ensures Findings(meta, techLeads, upcomingMinor) == Findings(meta.(stage := stage), techLeads, upcomingMinor)
  {
  }

  /** The release decides something exactly for KEPs in the alpha stage whose milestone lies
      between, that list approvers, and on which the two sets of rules differ. */
  lemma ReleaseMattersExactlyWhen(meta: Metadata, techLeads: set<string>, upcoming: int, later: int)
    requires upcoming <= later
    ensures |Findings(meta, techLeads, later)| < |Findings(meta, techLeads, upcoming)| <==>
      (!Exempt(meta) && meta.entries != [] && ActivelyAlpha(meta, upcoming) && !ActivelyAlpha(meta, later)
       && !MarksOnlyLeads(meta.entries, techLeads))
  {
    NoMarkedNonLeads(meta.entries, techLeads);
  }

  /** An alpha KEP of the coming cycle that marks somebody who is no tech lead: with the right
      upcoming release it breaks both rules, with 999 none. */
  lemma FallbackIsNotStrict()
    ensures var meta := Metadata("implementable", "alpha", "v1.40", [Entry("x", true)]);
      && Findings(meta, {"y"}, 40) == [NoTechLead, MarkedNonLead("x")]
      && Findings(meta, {"y"}, 999) == []
  {
    MinorOfForty();
    MarkedStranger("v1.40", "x", "y", 40);
    MarkedStranger("v1.40", "x", "y", 999);
  }

  lemma {:induction false} MarkedStranger(milestone: string, user: string, lead: string, upcomingMinor: int)
    requires ParseMilestoneMinor(milestone) >= MIN_ENFORCED_MINOR && user != lead
    ensures Findings(Metadata("implementable", "alpha", milestone, [Entry(user, true)]), {lead}, upcomingMinor)
         == if ParseMilestoneMinor(milestone) >= upcomingMinor then [NoTechLead, MarkedNonLead(user)] else []
  {
    var entries := [Entry(user, true)];
    assert entries[..0] == [];
    assert MarkedNonLeads(entries, {lead}) == [MarkedNonLead(user)];
    assert entries[0].marked;
  }

  lemma {:induction false} MinorOf(milestone: string, n: nat)
    requires n <= MAX_INT && milestone == ['v'] + Version(n, [])
    ensures ParseMilestoneMinor(milestone) == n
  {
    MinorRoundTrip(n, []);
  }

  lemma MinorOfForty()
    ensures ParseMilestoneMinor("v1.40") == 40
  {
    FortyAsText();
    assert "v1.40" == ['v'] + (['1', '.'] + ("40" + []));
    MinorOf("v1.40", 40);
  }

  lemma FortyAsText()
    ensures DecimalNat(40) == "40"
  {
    assert DecimalNat(4) == ['4'];
  }
}
