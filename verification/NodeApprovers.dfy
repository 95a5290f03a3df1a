/** Verification of the SIG Node assignments in a kep.yaml against its OWNERS file. */
module NodeApprovers {
  import opened Options
  import opened Text

  // ----- handles -----

  /** Trims white space and one leading "@", and lowercases. */
  function NormalizeUser(name: string): string {
    ToLower(TrimPrefix(TrimSpace(name), "@"))
  }

  predicate Lowercase(u: string) {
    forall i :: 0 <= i < |u| ==> LowerChar(u[i]) == u[i]
  }

  /** Handles that normalizing leaves alone. */
  predicate NormalForm(u: string) {
    Trimmed(u) && Lowercase(u) && (u == [] || u[0] != '@')
  }

  /** A handle whose "@" is followed by another one, or by white space. */
  predicate Stutters(name: string) {
    var t := TrimSpace(name);
    |t| >= 2 && t[0] == '@' && (t[1] == '@' || IsSpace(t[1]))
  }

  lemma NormalizeFacts(name: string)
    ensures |NormalizeUser(name)| <= |name| && Lowercase(NormalizeUser(name))
  {
    TrimSpaceFacts(name);
    var n := NormalizeUser(name);
    forall i | 0 <= i < |n|
      ensures LowerChar(n[i]) == n[i]
    {
      LowerFacts(TrimPrefix(TrimSpace(name), "@")[i]);
    }
  }

  /** Normalizing leaves alone exactly the handles in normal form. */
  lemma FixedIffNormalForm(u: string)
    ensures NormalizeUser(u) == u <==> NormalForm(u)
  {
    TrimSpaceFacts(u);
    if NormalizeUser(u) == u {
      assert |TrimSpace(u)| == |u|;
      assert u != [] ==> !("@" <= u);
      assert u != [] && u[0] == '@' ==> "@" <= u;
      NormalizeFacts(u);
    }
  }

  /** Normalizing a lowercase handle shortens it, unless it is in normal form. */
  lemma NormalizeShortens(u: string)
    requires Lowercase(u) && NormalizeUser(u) != u
    ensures |NormalizeUser(u)| < |u|
  {
    TrimSpaceFacts(u);
    assert Lowercase(u) ==> ToLower(u) == u;
    NormalizeFacts(u);
  }

  /** Normalizing twice is normalizing once exactly for the handles that do not stutter. */
  lemma IdempotentIffNoStutter(name: string)
    ensures NormalizeUser(NormalizeUser(name)) == NormalizeUser(name) <==> !Stutters(name)
  {
    var t := TrimSpace(name);
    var n := NormalizeUser(name);
    TrimSpaceFacts(name);
    FixedIffNormalForm(n);
    NormalizeFacts(name);
    var p := TrimPrefix(t, "@");
    if t != [] && t[0] == '@' {
      assert "@" <= t;
      assert p == t[1..];
    } else {
      assert p == t;
    }
    if p != [] {
      LowerFacts(p[0]);
      LowerFacts(p[|p| - 1]);
    }
  }

  /** A handle is read the same with white space around it, with an "@" before it or without, and
      in upper or lower case. */
  lemma {:induction false} HandleReadBack(pad: string, v: string, pad': string)
    requires Blank(pad) && Blank(pad') && v != [] && Trimmed(v) && v[0] != '@'
    ensures NormalizeUser(pad + v + pad') == ToLower(v)
    ensures NormalizeUser(pad + (['@'] + v) + pad') == ToLower(v)
  {
    TrimPadded(pad, v, pad');
    TrimPadded(pad, ['@'] + v, pad');
    assert "@" == ['@'] && !(['@'] <= v) && (['@'] + v)[1..] == v;
  }

  // ----- lists of handles -----

  /** Some member of the list is user once normalized. */
  ghost predicate HasUnder(normalize: string -> string, list: seq<string>, user: string) {
    exists i :: 0 <= i < |list| && normalize(list[i]) == user
  }

  ghost predicate HasNormalized(list: seq<string>, user: string) {
    HasUnder(NormalizeUser, list, user)
  }

  method ContainsUnder(normalize: string -> string, list: seq<string>, user: string) returns (found: bool)
    ensures found <==> HasUnder(normalize, list, user)
  {
    for i := 0 to |list|
      invariant forall k :: 0 <= k < i ==> normalize(list[k]) != user
    {
      if normalize(list[i]) == user {
        return true;
      }
    }
    return false;
  }

  /** Reports whether some member of the list normalizes to user. */
  method ContainsNormalized(list: seq<string>, user: string) returns (found: bool)
    ensures found <==> exists i :: 0 <= i < |list| && NormalizeUser(list[i]) == user
  {
    found := ContainsUnder(NormalizeUser, list, user);
  }

  ghost predicate AllLowercase(users: seq<string>) {
    forall i :: 0 <= i < |users| ==> Lowercase(users[i])
  }

  ghost predicate AllNormal(users: seq<string>) {
    forall i :: 0 <= i < |users| ==> NormalForm(users[i])
  }

  /** If normalizing a list once more still yields all its members, then it changes none of
      them: what changes gets shorter, so the longest member that changes could not reappear. */
  lemma {:induction false} ReappearingIsNormal(users: seq<string>, u: string, longest: nat)
    requires AllLowercase(users) && u in users && Covers(users, users)
    requires forall i :: 0 <= i < |users| ==> |users[i]| <= longest
    ensures NormalForm(u)
    decreases longest - |u|
  {
    assert HasNormalized(users, u);
    var i :| 0 <= i < |users| && NormalizeUser(users[i]) == u;
    var v := users[i];
    FixedIffNormalForm(v);
    if NormalizeUser(v) != v {
      NormalizeShortens(v);
      ReappearingIsNormal(users, v, longest);
    }
  }

  function Longest(users: seq<string>): (n: nat)
    ensures forall i :: 0 <= i < |users| ==> |users[i]| <= n
  {
    if users == [] then 0
    else
      var n := Longest(users[1..]);
      assert forall i :: 1 <= i < |users| ==> users[i] == users[1..][i - 1];
      if |users[0]| > n then |users[0]| else n
  }

  ghost predicate Covers(users: seq<string>, list: seq<string>) {
    forall i :: 0 <= i < |users| ==> HasNormalized(list, users[i])
  }

  ghost predicate SameUsers(a: seq<string>, b: seq<string>) {
    forall u :: u in a <==> u in b
  }

  function NormalizeAll(list: seq<string>): (users: seq<string>)
    ensures |users| == |list| && forall i :: 0 <= i < |list| ==> users[i] == NormalizeUser(list[i])
  {
    if list == [] then [] else [NormalizeUser(list[0])] + NormalizeAll(list[1..])
  }

  lemma {:induction false} NormalizedMember(list: seq<string>, u: string)
    ensures u in NormalizeAll(list) <==> HasNormalized(list, u)
  {
    if u in NormalizeAll(list) {
      var i :| 0 <= i < |list| && NormalizeAll(list)[i] == u;
    }
    if HasNormalized(list, u) {
      var i :| 0 <= i < |list| && NormalizeUser(list[i]) == u;
      assert NormalizeAll(list)[i] == u;
    }
  }

  /** The two-way check: every assigned user is owned, and every owner, normalized, is found
      among the assigned users normalized once more. */
  ghost predicate Reconciled(named: seq<string>, owners: seq<string>) {
    Covers(named, owners) && Covers(NormalizeAll(owners), named)
  }

  lemma {:induction false} AssignedReappear(named: seq<string>, owners: seq<string>, i: nat)
    requires Reconciled(named, owners) && i < |named|
    ensures named[i] in NormalizeAll(owners) && HasNormalized(named, named[i])
  {
    var owned := NormalizeAll(owners);
    NormalizedMember(owners, named[i]);
    var k :| 0 <= k < |owned| && owned[k] == named[i];
  }

  lemma AllReappear(named: seq<string>, owners: seq<string>)
    requires Reconciled(named, owners)
    ensures Covers(named, named)
  {
    forall i | 0 <= i < |named|
      ensures HasNormalized(named, named[i])
    {
      AssignedReappear(named, owners, i);
    }
  }

  lemma ReconciledAreNormal(named: seq<string>, owners: seq<string>)
    requires AllLowercase(named) && Reconciled(named, owners)
    ensures AllNormal(named)
  {
    AllReappear(named, owners);
    forall i | 0 <= i < |named|
      ensures NormalForm(named[i])
    {
      ReappearingIsNormal(named, named[i], Longest(named));
    }
  }

  lemma {:induction false} ReconciledAreSame(named: seq<string>, owners: seq<string>)
    requires AllNormal(named) && Reconciled(named, owners)
    ensures SameUsers(named, NormalizeAll(owners))
  {
    var owned := NormalizeAll(owners);
    forall u
      ensures u in named <==> u in owned
    {
      if u in named {
        var i :| 0 <= i < |named| && named[i] == u;
        AssignedReappear(named, owners, i);
      }
      if u in owned {
        var k :| 0 <= k < |owned| && owned[k] == u;
        NormalMember(named, u);
      }
    }
  }

  lemma {:induction false} SameAreReconciled(named: seq<string>, owners: seq<string>)
    requires AllNormal(named) && SameUsers(named, NormalizeAll(owners))
    ensures Reconciled(named, owners)
  {
    var owned := NormalizeAll(owners);
    forall i | 0 <= i < |named|
      ensures HasNormalized(owners, named[i])
    {
      assert named[i] in owned;
      NormalizedMember(owners, named[i]);
    }
    forall k | 0 <= k < |owned|
      ensures HasNormalized(named, owned[k])
    {
      assert owned[k] in owned;
      NormalMember(named, owned[k]);
    }
  }

  /** The two-way check succeeds exactly when the normalized sets are equal and every
      assigned handle is in normal form after one normalization. */
  lemma {:induction false} ReconciledExactlyWhen(named: seq<string>, owners: seq<string>)
    requires AllLowercase(named)
    ensures Reconciled(named, owners) <==> SameUsers(named, NormalizeAll(owners)) && AllNormal(named)
  {
    if Reconciled(named, owners) {
      ReconciledAreNormal(named, owners);
      ReconciledAreSame(named, owners);
    }
    if SameUsers(named, NormalizeAll(owners)) && AllNormal(named) {
      SameAreReconciled(named, owners);
    }
  }

  lemma NormalMember(users: seq<string>, u: string)
    requires AllNormal(users)
    ensures HasNormalized(users, u) <==> u in users
  {
    if HasNormalized(users, u) {
      var i :| 0 <= i < |users| && NormalizeUser(users[i]) == u;
      FixedIffNormalForm(users[i]);
    }
    if u in users {
      var i :| 0 <= i < |users| && users[i] == u;
      FixedIffNormalForm(users[i]);
    }
  }

  // ----- the annotations of a kep.yaml -----

  const REVIEWER_MARKER := "sig-node-assigned-reviewer"
  const APPROVER_MARKER := "sig-node-assigned-approver"

  /** An entry of a YAML sequence: its value and inline comment. */
  datatype Item = Item(scalar: bool, value: string, comment: string)

  function MarkerOf(comment: string): string {
    TrimSpace(TrimPrefix(TrimSpace(comment), "#"))
  }

  /** A comment that consists of the marker: white space, perhaps a "#", white space, the marker,
      white space. */
  ghost predicate SaysOnly(comment: string, marker: string) {
    exists a, hash, b, c :: IsComment(comment, a, hash, b, marker, c)
  }

  ghost predicate IsComment(comment: string, a: string, hash: string, b: string, marker: string, c: string) {
    && Blank(a) && Blank(b) && Blank(c) && (hash == [] || hash == ['#'])
    && comment == a + hash + b + marker + c
  }

  lemma MarkerOfComment(a: string, b: string, marker: string, c: string)
    requires Blank(a) && Blank(b) && Blank(c) && marker != [] && Trimmed(marker)
    ensures MarkerOf(a + ['#'] + b + marker + c) == marker
  {
    var t := ['#'] + b + marker;
    assert a + ['#'] + b + marker + c == a + t + c;
    assert !IsSpace('#');
    TrimPadded(a, t, c);
    assert "#" == ['#'] && t[1..] == b + marker + [];
    TrimPadded(b, marker, []);
  }

  lemma MarkerAlone(a: string, b: string, marker: string, c: string)
    requires Blank(a) && Blank(b) && Blank(c) && marker != [] && Trimmed(marker) && marker[0] != '#'
    ensures MarkerOf(a + [] + b + marker + c) == marker
  {
    assert a + [] + b + marker + c == (a + b) + marker + c;
    TrimPadded(a + b, marker, c);
    assert "#" == ['#'] && !(['#'] <= marker);
    TrimSpaceFacts(marker);
  }

  lemma CommentOfMarker(comment: string, marker: string)
    requires MarkerOf(comment) == marker && marker != []
    ensures SaysOnly(comment, marker)
  {
    var t := TrimSpace(comment);
    var a, c := TrimSplits(comment);
    TrimSpaceFacts(comment);
    TrimSpaceFacts(t);
    assert "#" == ['#'];
    if ['#'] <= t {
      var b, c' := TrimSplits(t[1..]);
      HashedComment(comment, a, t, b, marker, c', c);
    } else {
      BareComment(comment, a, marker, c);
    }
  }

  lemma HashedComment(comment: string, a: string, t: string, b: string, marker: string, c': string, c: string)
    requires Blank(a) && Blank(b) && Blank(c') && Blank(c) && ['#'] <= t
    requires comment == a + t + c && t[1..] == b + marker + c'
    ensures SaysOnly(comment, marker)
  {
    assert t == ['#'] + t[1..];
    assert comment == a + ['#'] + b + marker + (c' + c);
    assert IsComment(comment, a, ['#'], b, marker, c' + c);
  }

  lemma BareComment(comment: string, a: string, marker: string, c: string)
    requires Blank(a) && Blank(c) && comment == a + marker + c
    ensures SaysOnly(comment, marker)
  {
    assert comment == a + [] + [] + marker + c;
    assert IsComment(comment, a, [], [], marker, c);
  }

  /** An entry is marked exactly when its comment consists of the marker, after one "#" at most. */
  lemma MarkedExactlyWhen(marker: string, item: Item)
    requires marker != [] && Trimmed(marker) && marker[0] != '#'
    ensures Marked(marker)(item) <==> SaysOnly(item.comment, marker)
  {
    if Marked(marker)(item) {
      CommentOfMarker(item.comment, marker);
    }
    if SaysOnly(item.comment, marker) {
      var a, hash, b, c :| IsComment(item.comment, a, hash, b, marker, c);
      if hash == [] {
        MarkerAlone(a, b, marker, c);
      } else {
        MarkerOfComment(a, b, marker, c);
      }
    }
  }

  /** The two markers, spelled out. */
  lemma MarkersAre()
    ensures REVIEWER_MARKER == "sig-node-assigned-reviewer" && APPROVER_MARKER == "sig-node-assigned-approver"
    ensures Trimmed(REVIEWER_MARKER) && Trimmed(APPROVER_MARKER)
    ensures REVIEWER_MARKER[0] != '#' && APPROVER_MARKER[0] != '#'
  {
  }

  /** The normalized handles of the scalar entries that satisfy a test. */
  function Users(items: seq<Item>, keep: Item -> bool): (users: seq<string>)
    ensures AllLowercase(users)
  {
    if items == [] then []
    else
      var last := items[|items| - 1];
      NormalizeFacts(last.value);
      Users(items[..|items| - 1], keep) + if last.scalar && keep(last) then [NormalizeUser(last.value)] else []
  }

  function Marked(marker: string): Item -> bool {
    (i: Item) => MarkerOf(i.comment) == marker
  }

  function Any(): Item -> bool {
    (i: Item) => true
  }

  /** A missing sequence has no entries. */
  function ItemsOf(node: Option<seq<Item>>): seq<Item> {
    if node.None? then [] else node.value
  }

  method UsersLoop(node: Option<seq<Item>>, keep: Item -> bool) returns (users: seq<string>)
    ensures users == Users(ItemsOf(node), keep)
  {
    users := [];
    if node.None? {
      return;
    }
    var items := node.value;
    for i := 0 to |items|
      invariant users == Users(items[..i], keep)
    {
      assert items[..i + 1][..i] == items[..i];
      if items[i].scalar && keep(items[i]) {
        users := users + [NormalizeUser(items[i].value)];
      }
    }
    assert items[..|items|] == items;
  }

  /** No entry that is read stutters. */
  ghost predicate StutterFree(items: seq<Item>, keep: Item -> bool) {
    forall i :: 0 <= i < |items| && items[i].scalar && keep(items[i]) ==> !Stutters(items[i].value)
  }

  lemma StutterFreeStep(items: seq<Item>, keep: Item -> bool, rest: seq<Item>, last: Item)
    requires items == rest + [last]
    ensures StutterFree(items, keep)
       <==> StutterFree(rest, keep) && (last.scalar && keep(last) ==> !Stutters(last.value))
  {
    assert items[|rest|] == last;
    assert forall i :: 0 <= i < |rest| ==> items[i] == rest[i];
  }

  lemma NormalIffNoStutter(value: string)
    ensures NormalForm(NormalizeUser(value)) <==> !Stutters(value)
  {
    FixedIffNormalForm(NormalizeUser(value));
    IdempotentIffNoStutter(value);
  }

  /** The users read from a kep.yaml are in normal form exactly when no entry read stutters. */
  lemma {:induction false} UsersNormalExactlyWhen(items: seq<Item>, keep: Item -> bool)
    ensures AllNormal(Users(items, keep)) <==> StutterFree(items, keep)
    decreases |items|
  {
    if items != [] {
      var last, rest := items[|items| - 1], items[..|items| - 1];
      UsersNormalExactlyWhen(rest, keep);
      StutterFreeStep(items, keep, rest, last);
      NormalIffNoStutter(last.value);
      NormalAppend(Users(rest, keep), NormalizeUser(last.value));
      assert Users(rest, keep) + [] == Users(rest, keep);
    }
  }

  lemma NormalAppend(users: seq<string>, u: string)
    ensures AllNormal(users + [u]) <==> AllNormal(users) && NormalForm(u)
  {
    if AllNormal(users + [u]) {
      assert (users + [u])[|users|] == u;
      forall i | 0 <= i < |users|
        ensures NormalForm(users[i])
      {
        assert (users + [u])[i] == users[i];
      }
    }
  }

  // ----- violations -----

  datatype Role = Reviewer | Approver

  datatype Reason =
    | NoOwnersFile
    | NotInOwners
    | NotAnnotated

  datatype Violation = Violation(path: string, role: Role, user: string, reason: Reason)

  datatype Owners = Owners(reviewers: seq<string>, approvers: seq<string>)

  /** One violation, in order, for every user that fails a test. */
  ghost function Report(path: string, role: Role, reason: Reason, users: seq<string>,
                        bad: string -> bool): seq<Violation> {
    if users == [] then []
    else
      var last := users[|users| - 1];
      Report(path, role, reason, users[..|users| - 1], bad)
      + if bad(last) then [Violation(path, role, last, reason)] else []
  }

  lemma {:induction false} ReportEmpty(path: string, role: Role, reason: Reason, users: seq<string>,
                                       bad: string -> bool)
    ensures Report(path, role, reason, users, bad) == [] <==> forall i :: 0 <= i < |users| ==> !bad(users[i])
    decreases |users|
  {
    if users != [] {
      var rest := users[..|users| - 1];
      ReportEmpty(path, role, reason, rest, bad);
      assert forall i :: 0 <= i < |rest| ==> rest[i] == users[i];
    }
  }

  lemma {:induction false} ReportStep(path: string, role: Role, reason: Reason, users: seq<string>,
                                      bad: string -> bool, i: nat)
    requires i < |users|
    ensures Report(path, role, reason, users[..i + 1], bad)
         == Report(path, role, reason, users[..i], bad)
            + if bad(users[i]) then [Violation(path, role, users[i], reason)] else []
  {
    assert users[..i + 1][..i] == users[..i];
  }

  ghost function NotIn(list: seq<string>): string -> bool {
    (u: string) => !HasNormalized(list, u)
  }

  /** An owner is excused from annotation as a tech lead listed among the approvers. */
  ghost function NeitherAnnotatedNorLead(named: seq<string>, listed: seq<string>,
                                         techLeads: set<string>): string -> bool {
    (u: string) => !HasNormalized(named, u) && (u !in techLeads || !HasNormalized(listed, u))
  }

  ghost function Always(): string -> bool {
    (u: string) => true
  }

  /** All violations of a kep.yaml, in the order they are reported. */
  ghost function Violations(path: string, reviewers: seq<string>, approvers: seq<string>, listed: seq<string>,
                            owners: Option<Owners>, techLeads: set<string>): seq<Violation> {
    if owners.None? then
      Report(path, Reviewer, NoOwnersFile, reviewers, Always())
      + Report(path, Approver, NoOwnersFile, approvers, Always())
    else
      Report(path, Reviewer, NotInOwners, reviewers, NotIn(owners.value.reviewers))
      + Report(path, Approver, NotInOwners, approvers, NotIn(owners.value.approvers))
      + Report(path, Reviewer, NotAnnotated, NormalizeAll(owners.value.reviewers), NotIn(reviewers))
      + Report(path, Approver, NotAnnotated, NormalizeAll(owners.value.approvers),
               NeitherAnnotatedNorLead(approvers, listed, techLeads))
  }

  method MissingLoop(path: string, role: Role, users: seq<string>, list: seq<string>) returns (v: seq<Violation>)
    ensures v == Report(path, role, NotInOwners, users, NotIn(list))
  {
    v := [];
    for i := 0 to |users|
      invariant v == Report(path, role, NotInOwners, users[..i], NotIn(list))
    {
      ReportStep(path, role, NotInOwners, users, NotIn(list), i);
      var found := ContainsNormalized(list, users[i]);
      if !found {
        v := v + [Violation(path, role, users[i], NotInOwners)];
      }
    }
    assert users[..|users|] == users;
  }

  method Excused(user: string, named: seq<string>, listed: seq<string>, techLeads: set<string>) returns (ok: bool)
    ensures ok <==> !NeitherAnnotatedNorLead(named, listed, techLeads)(user)
  {
    var annotated := ContainsNormalized(named, user);
    var isListed := ContainsNormalized(listed, user);
    ok := annotated || (user in techLeads && isListed);
  }

  method UnannotatedLoop(path: string, role: Role, owners: seq<string>, named: seq<string>, listed: seq<string>,
                         techLeads: set<string>) returns (v: seq<Violation>)
    ensures v == Report(path, role, NotAnnotated, NormalizeAll(owners),
                        NeitherAnnotatedNorLead(named, listed, techLeads))
  {
    v := [];
    var users := NormalizeAll(owners);
    ghost var bad := NeitherAnnotatedNorLead(named, listed, techLeads);
    for i := 0 to |users|
      invariant v == Report(path, role, NotAnnotated, users[..i], bad)
    {
      ReportStep(path, role, NotAnnotated, users, bad, i);
      var excused := Excused(users[i], named, listed, techLeads);
      if !excused {
        v := v + [Violation(path, role, users[i], NotAnnotated)];
      }
    }
    assert users[..|users|] == users;
  }

  method AbsentLoop(path: string, role: Role, users: seq<string>) returns (v: seq<Violation>)
    ensures v == Report(path, role, NoOwnersFile, users, Always())
  {
    v := [];
    for i := 0 to |users|
      invariant v == Report(path, role, NoOwnersFile, users[..i], Always())
    {
      ReportStep(path, role, NoOwnersFile, users, Always(), i);
      v := v + [Violation(path, role, users[i], NoOwnersFile)];
    }
    assert users[..|users|] == users;
  }

  /** Without tech leads, being listed is no excuse. */
  lemma {:induction false} NoLeads(path: string, role: Role, reason: Reason, users: seq<string>,
                                   named: seq<string>, listed: seq<string>)
    ensures Report(path, role, reason, users, NeitherAnnotatedNorLead(named, listed, {}))
         == Report(path, role, reason, users, NotIn(named))
    decreases |users|
  {
    if users != [] {
      NoLeads(path, role, reason, users[..|users| - 1], named, listed);
    }
  }

  method VerifyKEP(path: string, reviewers: Option<seq<Item>>, approvers: Option<seq<Item>>, owners: Option<Owners>,
                   techLeads: set<string>) returns (violations: seq<Violation>)
    ensures violations == Violations(path, Users(ItemsOf(reviewers), Marked(REVIEWER_MARKER)),
                                     Users(ItemsOf(approvers), Marked(APPROVER_MARKER)),
                                     Users(ItemsOf(approvers), Any()), owners, techLeads)
    ensures violations == [] <==> KEPPasses(ItemsOf(reviewers), ItemsOf(approvers), owners, techLeads)
  {
    KEPPassesExactlyWhen(path, ItemsOf(reviewers), ItemsOf(approvers), owners, techLeads);
    var assignedReviewers := UsersLoop(reviewers, Marked(REVIEWER_MARKER));
    var assignedApprovers := UsersLoop(approvers, Marked(APPROVER_MARKER));
    var listedApprovers := UsersLoop(approvers, Any());
    if owners.None? {
      var v1 := AbsentLoop(path, Reviewer, assignedReviewers);
      var v2 := AbsentLoop(path, Approver, assignedApprovers);
      return v1 + v2;
    }
    var v1 := MissingLoop(path, Reviewer, assignedReviewers, owners.value.reviewers);
    var v2 := MissingLoop(path, Approver, assignedApprovers, owners.value.approvers);
    var v3 := UnannotatedLoop(path, Reviewer, owners.value.reviewers, assignedReviewers, [], {});
    NoLeads(path, Reviewer, NotAnnotated, NormalizeAll(owners.value.reviewers), assignedReviewers, []);
    var v4 := UnannotatedLoop(path, Approver, owners.value.approvers, assignedApprovers, listedApprovers, techLeads);
    violations := v1 + v2 + v3 + v4;
  }

  // ----- when a kep.yaml passes -----

  /** Every owning approver is annotated, or is a tech lead listed among the approvers. */
  ghost predicate ApproversAccounted(approvers: seq<string>, listed: seq<string>, owners: seq<string>,
                                     techLeads: set<string>) {
    forall i :: 0 <= i < |owners| ==>
      HasNormalized(approvers, NormalizeUser(owners[i]))
      || (NormalizeUser(owners[i]) in techLeads && HasNormalized(listed, NormalizeUser(owners[i])))
  }

  lemma {:induction false} MissingEmpty(path: string, role: Role, reason: Reason, users: seq<string>, list: seq<string>)
    ensures Report(path, role, reason, users, NotIn(list)) == [] <==> Covers(users, list)
  {
    ReportEmpty(path, role, reason, users, NotIn(list));
    if Report(path, role, reason, users, NotIn(list)) == [] {
      forall i | 0 <= i < |users|
        ensures HasNormalized(list, users[i])
      {
        assert !NotIn(list)(users[i]);
      }
    }
  }

  lemma {:induction false} UnaccountedEmpty(path: string, approvers: seq<string>, listed: seq<string>,
                                            owners: seq<string>, techLeads: set<string>)
    ensures Report(path, Approver, NotAnnotated, NormalizeAll(owners),
                   NeitherAnnotatedNorLead(approvers, listed, techLeads)) == []
       <==> ApproversAccounted(approvers, listed, owners, techLeads)
  {
    var users, bad := NormalizeAll(owners), NeitherAnnotatedNorLead(approvers, listed, techLeads);
    ReportEmpty(path, Approver, NotAnnotated, users, bad);
    forall i | 0 <= i < |owners|
      ensures !bad(users[i]) <==>
        HasNormalized(approvers, NormalizeUser(owners[i]))
        || (NormalizeUser(owners[i]) in techLeads && HasNormalized(listed, NormalizeUser(owners[i])))
    {
      assert users[i] == NormalizeUser(owners[i]);
    }
  }

  /** For every input: which of them pass. */
  lemma PassesExactlyWhen(path: string, reviewers: seq<string>, approvers: seq<string>, listed: seq<string>,
                          owners: Option<Owners>, techLeads: set<string>)
    requires AllLowercase(reviewers)
    ensures owners.None? ==>
      (Violations(path, reviewers, approvers, listed, owners, techLeads) == [] <==> reviewers == [] && approvers == [])
    ensures owners.Some? ==>
      (Violations(path, reviewers, approvers, listed, owners, techLeads) == [] <==>
        && SameUsers(reviewers, NormalizeAll(owners.value.reviewers)) && AllNormal(reviewers)
        && Covers(approvers, owners.value.approvers)
        && ApproversAccounted(approvers, listed, owners.value.approvers, techLeads))
  {
    if owners.None? {
      ReportEmpty(path, Reviewer, NoOwnersFile, reviewers, Always());
      ReportEmpty(path, Approver, NoOwnersFile, approvers, Always());
      if reviewers != [] {
        assert Always()(reviewers[0]);
      }
      if approvers != [] {
        assert Always()(approvers[0]);
      }
    } else {
      var o := owners.value;
      MissingEmpty(path, Reviewer, NotInOwners, reviewers, o.reviewers);
      MissingEmpty(path, Approver, NotInOwners, approvers, o.approvers);
      MissingEmpty(path, Reviewer, NotAnnotated, NormalizeAll(o.reviewers), reviewers);
      UnaccountedEmpty(path, approvers, listed, o.approvers, techLeads);
      ReconciledExactlyWhen(reviewers, o.reviewers);
    }
  }

  /** The tech leads that the members of an alias make up. */
  function LeadsOf(members: seq<string>): set<string> {
    set m | m in members :: NormalizeUser(m)
  }

  /** Every tech lead is in normal form. */
  ghost predicate LeadsNormal(techLeads: set<string>) {
    forall u :: u in techLeads ==> NormalForm(u)
  }

  lemma {:induction false} CoveredAreOwned(users: seq<string>, owners: seq<string>)
    ensures Covers(users, owners) <==> forall u :: u in users ==> u in NormalizeAll(owners)
  {
    forall u
      ensures u in NormalizeAll(owners) <==> HasNormalized(owners, u)
    {
      NormalizedMember(owners, u);
    }
    if Covers(users, owners) {
      forall u | u in users
        ensures u in NormalizeAll(owners)
      {
        var i :| 0 <= i < |users| && users[i] == u;
      }
    }
    assert forall i :: 0 <= i < |users| ==> users[i] in users;
  }

  /** Every owner is annotated, or is a tech lead whom the approvers list names. */
  ghost predicate OwnersAnnotatedOrLead(approvers: seq<string>, listed: seq<string>, owned: seq<string>,
                                        techLeads: set<string>) {
    forall u :: u in owned ==> u in approvers || (u in techLeads && HasNormalized(listed, u))
  }

  lemma {:induction false} AccountedWhenNormal(approvers: seq<string>, listed: seq<string>, owners: seq<string>,
                                               techLeads: set<string>)
    requires AllNormal(approvers)
    ensures ApproversAccounted(approvers, listed, owners, techLeads)
       <==> OwnersAnnotatedOrLead(approvers, listed, NormalizeAll(owners), techLeads)
  {
    var owned := NormalizeAll(owners);
    forall u
      ensures u in approvers <==> HasNormalized(approvers, u)
    {
      NormalMember(approvers, u);
    }
    if ApproversAccounted(approvers, listed, owners, techLeads) {
      forall u | u in owned
        ensures u in approvers || (u in techLeads && HasNormalized(listed, u))
      {
        var k :| 0 <= k < |owned| && owned[k] == u;
        assert owned[k] == NormalizeUser(owners[k]);
      }
    }
    if OwnersAnnotatedOrLead(approvers, listed, owned, techLeads) {
      forall k | 0 <= k < |owners|
        ensures HasNormalized(approvers, NormalizeUser(owners[k]))
          || (NormalizeUser(owners[k]) in techLeads && HasNormalized(listed, NormalizeUser(owners[k])))
      {
        assert owned[k] in owned;
      }
    }
  }

  /** An annotated approver that is an owner and is accounted for reappears: among the annotated
      handles, normalized once more, or as a tech lead, who is in normal form. */
  lemma {:induction false} ApproverReappears(approvers: seq<string>, listed: seq<string>, owners: seq<string>,
                                             techLeads: set<string>, i: nat)
    requires LeadsNormal(techLeads) && i < |approvers|
    requires Covers(approvers, owners) && ApproversAccounted(approvers, listed, owners, techLeads)
    ensures HasNormalized(approvers, approvers[i])
  {
    var u := approvers[i];
    assert HasNormalized(owners, u);
    var k :| 0 <= k < |owners| && NormalizeUser(owners[k]) == u;
    if u in techLeads {
      FixedIffNormalForm(u);
      assert NormalizeUser(approvers[i]) == u;
    }
  }

  lemma {:induction false} AccountedAreNormal(approvers: seq<string>, listed: seq<string>, owners: seq<string>,
                                              techLeads: set<string>)
    requires AllLowercase(approvers) && LeadsNormal(techLeads)
    requires Covers(approvers, owners) && ApproversAccounted(approvers, listed, owners, techLeads)
    ensures AllNormal(approvers)
  {
    forall i | 0 <= i < |approvers|
      ensures HasNormalized(approvers, approvers[i])
    {
      ApproverReappears(approvers, listed, owners, techLeads, i);
    }
    forall i | 0 <= i < |approvers|
      ensures NormalForm(approvers[i])
    {
      ReappearingIsNormal(approvers, approvers[i], Longest(approvers));
    }
  }

  /** With tech leads in normal form, the approvers pass exactly when every annotated one is in
      normal form and an owner, and every owner is annotated or a listed tech lead. */
  lemma {:induction false} ApproversPassExactlyWhen(approvers: seq<string>, listed: seq<string>, owners: seq<string>,
                                                    techLeads: set<string>)
    requires AllLowercase(approvers) && LeadsNormal(techLeads)
    ensures Covers(approvers, owners) && ApproversAccounted(approvers, listed, owners, techLeads)
       <==> && AllNormal(approvers) && (forall u :: u in approvers ==> u in NormalizeAll(owners))
            && OwnersAnnotatedOrLead(approvers, listed, NormalizeAll(owners), techLeads)
  {
    CoveredAreOwned(approvers, owners);
    if Covers(approvers, owners) && ApproversAccounted(approvers, listed, owners, techLeads) {
      AccountedAreNormal(approvers, listed, owners, techLeads);
      AccountedWhenNormal(approvers, listed, owners, techLeads);
    }
    if AllNormal(approvers) {
      AccountedWhenNormal(approvers, listed, owners, techLeads);
    }
  }

  // ----- from the entries of the file -----

  /** What a kep.yaml must say to pass: without an OWNERS file nobody is annotated; with one,
      the annotated reviewers are the owning ones and none of them stutters, every annotated
      approver is an owner, and every owning approver is accounted for. */
  ghost predicate KEPPasses(reviewers: seq<Item>, approvers: seq<Item>, owners: Option<Owners>,
                            techLeads: set<string>) {
    var assignedReviewers := Users(reviewers, Marked(REVIEWER_MARKER));
    var assignedApprovers := Users(approvers, Marked(APPROVER_MARKER));
    match owners
    case None => assignedReviewers == [] && assignedApprovers == []
    case Some(o) =>
      && SameUsers(assignedReviewers, NormalizeAll(o.reviewers)) && StutterFree(reviewers, Marked(REVIEWER_MARKER))
      && Covers(assignedApprovers, o.approvers)
      && ApproversAccounted(assignedApprovers, Users(approvers, Any()), o.approvers, techLeads)
  }

  lemma {:induction false} KEPPassesExactlyWhen(path: string, reviewers: seq<Item>, approvers: seq<Item>,
                                                owners: Option<Owners>, techLeads: set<string>)
    ensures Violations(path, Users(reviewers, Marked(REVIEWER_MARKER)), Users(approvers, Marked(APPROVER_MARKER)),
                       Users(approvers, Any()), owners, techLeads) == []
       <==> KEPPasses(reviewers, approvers, owners, techLeads)
  {
    PassesExactlyWhen(path, Users(reviewers, Marked(REVIEWER_MARKER)), Users(approvers, Marked(APPROVER_MARKER)),
                      Users(approvers, Any()), owners, techLeads);
    UsersNormalExactlyWhen(reviewers, Marked(REVIEWER_MARKER));
  }

  /** With tech leads in normal form, whatever the entries: a kep.yaml passes exactly when no
      annotated entry stutters, the annotated reviewers are the owning ones, the annotated
      approvers are owners, and every owning approver is annotated or a listed tech lead. */
  lemma {:induction false} KEPPassesAsSets(reviewers: seq<Item>, approvers: seq<Item>, owners: Owners,
                                           techLeads: set<string>)
    requires LeadsNormal(techLeads)
    ensures var annotated := Users(approvers, Marked(APPROVER_MARKER));
      KEPPasses(reviewers, approvers, Some(owners), techLeads) <==>
        && StutterFree(reviewers, Marked(REVIEWER_MARKER)) && StutterFree(approvers, Marked(APPROVER_MARKER))
        && SameUsers(Users(reviewers, Marked(REVIEWER_MARKER)), NormalizeAll(owners.reviewers))
        && (forall u :: u in annotated ==> u in NormalizeAll(owners.approvers))
        && OwnersAnnotatedOrLead(annotated, Users(approvers, Any()), NormalizeAll(owners.approvers), techLeads)
  {
    UsersNormalExactlyWhen(approvers, Marked(APPROVER_MARKER));
    ApproversPassExactlyWhen(Users(approvers, Marked(APPROVER_MARKER)), Users(approvers, Any()),
                             owners.approvers, techLeads);
  }

  /** Without tech leads: exactly when the annotated handles are the owning ones in both roles,
      and no annotated entry stutters. */
  lemma {:induction false} KEPPassesWithoutLeads(reviewers: seq<Item>, approvers: seq<Item>, owners: Owners)
    ensures KEPPasses(reviewers, approvers, Some(owners), {}) <==>
        && StutterFree(reviewers, Marked(REVIEWER_MARKER)) && StutterFree(approvers, Marked(APPROVER_MARKER))
        && SameUsers(Users(reviewers, Marked(REVIEWER_MARKER)), NormalizeAll(owners.reviewers))
        && SameUsers(Users(approvers, Marked(APPROVER_MARKER)), NormalizeAll(owners.approvers))
  {
    KEPPassesAsSets(reviewers, approvers, owners, {});
  }

  /** The tech leads are in normal form exactly when no member of the alias stutters. */
  lemma {:induction false} LeadsNormalExactlyWhen(members: seq<string>)
    ensures LeadsNormal(LeadsOf(members)) <==> forall m :: m in members ==> !Stutters(m)
  {
    forall m
      ensures NormalForm(NormalizeUser(m)) <==> !Stutters(m)
    {
      NormalIffNoStutter(m);
    }
    if LeadsNormal(LeadsOf(members)) {
      forall m | m in members
        ensures !Stutters(m)
      {
        assert NormalizeUser(m) in LeadsOf(members);
      }
    }
  }

  /** A member of the alias that stutters can excuse an annotated approver who does: "@@x" passes
      as an approver if "@@@x" is listed as well. */
  lemma StutteringLeadExcuses()
    ensures NormalizeUser("@@x") == "@x" && NormalizeUser("@@@x") == "@@x" && !AllNormal(["@x"])
    ensures Covers(["@x"], ["@@x"]) && ApproversAccounted(["@x"], ["@x", "@@x"], ["@@x"], LeadsOf(["@@x"]))
  {
    DoubleAtStutters();
    TripleAt();
    ExcusedByLead("@@x", "@x");
    assert !NormalForm(["@x"][0]);
  }

  lemma TripleAt()
    ensures NormalizeUser("@@@x") == "@@x"
  {
    assert TrimSpace("@@@x") == "@@@x";
    assert TrimPrefix("@@@x", "@") == "@@x";
    assert ToLower("@@x") == "@@x";
  }

  lemma {:induction false} ExcusedByLead(handle: string, u: string)
    requires NormalizeUser(handle) == u
    ensures Covers([u], [handle]) && ApproversAccounted([u], [u, handle], [handle], LeadsOf([handle]))
  {
    assert NormalizeUser([handle][0]) == u;
    assert NormalizeUser([u, handle][1]) == u;
    assert handle in [handle];
    assert u in LeadsOf([handle]);
  }

  /** Equal sets do not always pass: a stuttering handle is reported although the OWNERS file
      lists it exactly as the kep.yaml does. */
  lemma {:induction false} StutteringHandleIsReported(path: string, reviewers: seq<string>, owners: seq<string>)
    requires AllLowercase(reviewers) && SameUsers(reviewers, NormalizeAll(owners)) && !AllNormal(reviewers)
    ensures Violations(path, reviewers, [], [], Some(Owners(owners, [])), {}) != []
  {
    PassesExactlyWhen(path, reviewers, [], [], Some(Owners(owners, [])), {});
  }

  lemma DoubleAtStutters()
    ensures NormalizeUser("@@x") == "@x" && NormalizeUser("@x") == "x" && !NormalForm("@x")
  {
    assert TrimSpace("@@x") == "@@x";
    assert TrimPrefix("@@x", "@") == "@x";
    assert ToLower("@x") == "@x";
    assert TrimSpace("@x") == "@x";
    assert TrimPrefix("@x", "@") == "x";
    assert ToLower("x") == "x";
  }

  lemma {:induction false} NotNormalizedTo(list: seq<string>, u: string)
    requires |list| == 1
    ensures HasNormalized(list, u) <==> NormalizeUser(list[0]) == u
  {
  }

  lemma {:induction false} ReportOne(path: string, role: Role, reason: Reason, u: string, bad: string -> bool)
    ensures Report(path, role, reason, [u], bad) == if bad(u) then [Violation(path, role, u, reason)] else []
  {
    assert [u][..0] == [];
  }

  /** A reviewer annotated as "@@x" and listed as "@@x" in OWNERS is reported as not annotated. */
  lemma DoubleAtIsReported(path: string)
    ensures Violations(path, [NormalizeUser("@@x")], [], [], Some(Owners(["@@x"], [])), {})
         == [Violation(path, Reviewer, "@x", NotAnnotated)]
  {
    DoubleAtStutters();
    MisreportOne(path, "@@x", "@x");
  }

  lemma {:induction false} MisreportOne(path: string, handle: string, u: string)
    requires NormalizeUser(handle) == u && NormalizeUser(u) != u
    ensures Violations(path, [u], [], [], Some(Owners([handle], [])), {})
         == [Violation(path, Reviewer, u, NotAnnotated)]
  {
    assert NormalizeAll([handle]) == [u];
    NotNormalizedTo([handle], u);
    NotNormalizedTo([u], u);
    ReportOne(path, Reviewer, NotInOwners, u, NotIn([handle]));
    ReportOne(path, Reviewer, NotAnnotated, u, NotIn([u]));
  }

  // ----- a single entry, from its text -----

  lemma {:induction false} UsersOfOne(item: Item, keep: Item -> bool)
    ensures Users([item], keep) == if item.scalar && keep(item) then [NormalizeUser(item.value)] else []
  {
    assert [item][..0] == [];
    assert Users([], keep) == [];
  }

  /** A single reviewer passes exactly when the comment consists of the reviewer's marker, the handle
      is the one owner's, and it does not stutter. */
  lemma {:induction false} OneReviewerPassesExactlyWhen(value: string, comment: string, owner: string,
                                                        techLeads: set<string>)
    ensures KEPPasses([Item(true, value, comment)], [], Some(Owners([owner], [])), techLeads)
       <==> && SaysOnly(comment, "sig-node-assigned-reviewer")
            && NormalizeUser(value) == NormalizeUser(owner) && !Stutters(value)
  {
    var item := Item(true, value, comment);
    MarkersAre();
    MarkedExactlyWhen(REVIEWER_MARKER, item);
    OneUser(item, Marked(REVIEWER_MARKER), owner);
    assert Users([], Marked(APPROVER_MARKER)) == [] && Users([], Any()) == [];
    assert NormalizeAll([]) == [];
  }

  lemma {:induction false} OneUser(item: Item, keep: Item -> bool, owner: string)
    requires item.scalar
    ensures SameUsers(Users([item], keep), NormalizeAll([owner])) && StutterFree([item], keep)
       <==> keep(item) && NormalizeUser(item.value) == NormalizeUser(owner) && !Stutters(item.value)
  {
    UsersOfOne(item, keep);
    var owned := NormalizeAll([owner]);
    assert owned == [NormalizeUser(owner)];
    assert NormalizeUser(owner) in owned;
    assert [item][0] == item;
  }

  /** And a single approver, where nobody is a tech lead, with the approver's marker. */
  lemma {:induction false} OneApproverPassesExactlyWhen(value: string, comment: string, owner: string)
    ensures KEPPasses([], [Item(true, value, comment)], Some(Owners([], [owner])), {})
       <==> && SaysOnly(comment, "sig-node-assigned-approver")
            && NormalizeUser(value) == NormalizeUser(owner) && !Stutters(value)
  {
    var item := Item(true, value, comment);
    MarkersAre();
    MarkedExactlyWhen(APPROVER_MARKER, item);
    KEPPassesWithoutLeads([], [item], Owners([], [owner]));
    OneUser(item, Marked(APPROVER_MARKER), owner);
    assert Users([], Marked(REVIEWER_MARKER)) == [] && NormalizeAll([]) == [];
  }

  // ----- more tech leads, fewer violations -----

  /** a is b with some members left out. */
  ghost predicate IsSubsequence<T>(a: seq<T>, b: seq<T>)
    decreases |b|
  {
    a == [] ||
    (b != [] &&
     ((a[|a| - 1] == b[|b| - 1] && IsSubsequence(a[..|a| - 1], b[..|b| - 1])) || IsSubsequence(a, b[..|b| - 1])))
  }

  lemma {:induction false} SubsequenceAfter<T>(p: seq<T>, a: seq<T>, b: seq<T>)
    requires IsSubsequence(a, b)
    ensures IsSubsequence(p + a, p + b)
    decreases |p| + |b|
  {
    if b == [] {
      SubsequenceSelf(p);
      assert p + a == p && p + b == p;
    } else {
      assert (p + b)[..|p + b| - 1] == p + b[..|b| - 1];
      if a == [] {
        SubsequenceAfter(p, a, b[..|b| - 1]);
      } else if a[|a| - 1] == b[|b| - 1] && IsSubsequence(a[..|a| - 1], b[..|b| - 1]) {
        SubsequenceAfter(p, a[..|a| - 1], b[..|b| - 1]);
        assert (p + a)[..|p + a| - 1] == p + a[..|a| - 1];
      } else {
        SubsequenceAfter(p, a, b[..|b| - 1]);
      }
    }
  }

  lemma {:induction false} SubsequenceSelf<T>(a: seq<T>)
    ensures IsSubsequence(a, a)
    decreases |a|
  {
    if a != [] {
      SubsequenceSelf(a[..|a| - 1]);
    }
  }

  lemma {:induction false} ReportMonotone(path: string, role: Role, reason: Reason, users: seq<string>,
                                          bad: string -> bool, bad': string -> bool)
    requires forall u :: bad'(u) ==> bad(u)
    ensures IsSubsequence(Report(path, role, reason, users, bad'), Report(path, role, reason, users, bad))
    decreases |users|
  {
    if users != [] {
      var last, rest := users[|users| - 1], users[..|users| - 1];
      ReportMonotone(path, role, reason, rest, bad, bad');
      var a, b := Report(path, role, reason, rest, bad'), Report(path, role, reason, rest, bad);
      var v := Violation(path, role, last, reason);
      assert (b + [v])[..|b|] == b;
      assert (a + [v])[..|a|] == a;
      assert a + [] == a && b + [] == b;
    }
  }

  /** Naming more tech leads only removes violations. */
  lemma MoreTechLeadsFewerViolations(path: string, reviewers: seq<string>, approvers: seq<string>, listed: seq<string>,
                                     owners: Option<Owners>, techLeads: set<string>, more: set<string>)
    requires techLeads <= more
    ensures IsSubsequence(Violations(path, reviewers, approvers, listed, owners, more),
                          Violations(path, reviewers, approvers, listed, owners, techLeads))
  {
    if owners.None? {
      SubsequenceSelf(Violations(path, reviewers, approvers, listed, owners, more));
    } else {
      var users := NormalizeAll(owners.value.approvers);
      var bad := NeitherAnnotatedNorLead(approvers, listed, techLeads);
      var bad' := NeitherAnnotatedNorLead(approvers, listed, more);
      ReportMonotone(path, Approver, NotAnnotated, users, bad, bad');
      SubsequenceAfter(
        Report(path, Reviewer, NotInOwners, reviewers, NotIn(owners.value.reviewers))
        + Report(path, Approver, NotInOwners, approvers, NotIn(owners.value.approvers))
        + Report(path, Reviewer, NotAnnotated, NormalizeAll(owners.value.reviewers), NotIn(reviewers)),
        Report(path, Approver, NotAnnotated, users, bad'), Report(path, Approver, NotAnnotated, users, bad));
    }
  }
}
