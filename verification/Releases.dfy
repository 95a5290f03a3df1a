/** The highest of a set of numbers. */
module HighestOf {

  lemma NotEmpty(s: set<int>)
    requires s != {}
    ensures exists m :: m in s
  {
    if forall m :: m !in s {
    }
  }

  /** Walks the set in any order, starting from zero. */
  method Highest(seen: set<int>) returns (maxMinor: int)
    ensures maxMinor >= 0 && forall m :: m in seen ==> m <= maxMinor
    ensures maxMinor > 0 ==> maxMinor in seen
  {
    maxMinor := 0;
    var left := seen;
    ghost var walked := {};
    while left != {}
      invariant seen == left + walked
      invariant maxMinor >= 0 && (maxMinor > 0 ==> maxMinor in walked)
      invariant forall m :: m in walked ==> m <= maxMinor
      decreases left
    {
      NotEmpty(left);
      var m :| m in left;
      left := left - {m};
      walked := walked + {m};
      if m > maxMinor {
        maxMinor := m;
      }
    }
  }
}

/** Milestones and release tags: reading the minor version out of them, and inferring the
    upcoming release. */
module Releases {
  import opened HighestOf
  import opened Options
  import opened Text

  const MAX_INT := 0x7FFF_FFFF_FFFF_FFFF
  const MIN_INT := -0x8000_0000_0000_0000

  // ----- numbers as text -----

  predicate IsDigit(c: char) {
    '0' <= c <= '9'
  }

  predicate AllDigits(s: string) {
    forall i :: 0 <= i < |s| ==> IsDigit(s[i])
  }

  function DigitsValue(s: string): nat
    requires AllDigits(s)
  {
    if s == [] then 0 else 10 * DigitsValue(s[..|s| - 1]) + (s[|s| - 1] as int - '0' as int)
  }

  /** A decimal number in the range of a 64-bit integer, with an optional sign. */
  function Atoi(s: string): Option<int> {
    var digits := if s != [] && (s[0] == '-' || s[0] == '+') then s[1..] else s;
    if digits == [] || !AllDigits(digits) then None
    else
      var n: int := if s[0] == '-' then 0 - DigitsValue(digits) else DigitsValue(digits);
      if MIN_INT <= n <= MAX_INT then Some(n) else None
  }

  function Digit(d: nat): char
    requires d < 10
  {
    ('0' as int + d) as char
  }

  function DecimalNat(n: nat): (s: string)
    ensures s != [] && AllDigits(s)
  {
    if n < 10 then [Digit(n)] else DecimalNat(n / 10) + [Digit(n % 10)]
  }

  /** The "%d" format. */
  function Decimal(n: int): string {
    if n < 0 then "-" + DecimalNat(-n) else DecimalNat(n)
  }

  lemma {:induction false} DecimalValue(n: nat)
    ensures DigitsValue(DecimalNat(n)) == n
  {
    var s := DecimalNat(n);
    if n >= 10 {
      DecimalValue(n / 10);
      assert s[..|s| - 1] == DecimalNat(n / 10);
    } else {
      assert s[..|s| - 1] == [];
    }
  }

  lemma {:induction false} AtoiDecimal(n: nat)
    requires n <= MAX_INT
    ensures Atoi(DecimalNat(n)) == Some(n)
  {
    DecimalValue(n);
    var s := DecimalNat(n);
    assert IsDigit(s[0]);
  }

  lemma {:induction false} AtoiSigned(m: nat, d: string)
    requires d == DecimalNat(m)
    ensures Atoi(d) == if m <= MAX_INT then Some(m) else None
    ensures Atoi(['+'] + d) == Atoi(d)
    ensures Atoi(['-'] + d) == if MIN_INT <= 0 - m then Some(0 - m) else None
  {
    DecimalValue(m);
    assert IsDigit(d[0]);
    assert (['-'] + d)[1..] == d && (['+'] + d)[1..] == d;
  }

  /** Every number in the range of 64 bits is read back from its decimal text, with a sign or
      without, and no other number is. */
  lemma {:induction false} AtoiRoundTrip(n: int)
    ensures Atoi(Decimal(n)) == if MIN_INT <= n <= MAX_INT then Some(n) else None
    ensures 0 <= n <= MAX_INT ==> Atoi(['+'] + DecimalNat(n)) == Some(n)
  {
    var m: nat := if n < 0 then -n else n;
    AtoiSigned(m, DecimalNat(m));
    assert "-" == ['-'];
  }

  /** What is not a number is not read as one. */
  lemma AtoiRejects(s: string, i: nat)
    requires s == [] || (i < |s| && !IsDigit(s[i]) && (i > 0 || |s| == 1 || (s[0] != '-' && s[0] != '+')))
    ensures Atoi(s) == None
  {
    if s != [] && (s[0] == '-' || s[0] == '+') && i > 0 {
      assert s[1..][i - 1] == s[i];
    }
  }

  // ----- milestones -----

  function TrimQuotesLeft(s: string): string {
    if s != [] && s[0] == '"' then TrimQuotesLeft(s[1..]) else s
  }

  function TrimQuotesRight(s: string): string {
    if s != [] && s[|s| - 1] == '"' then TrimQuotesRight(s[..|s| - 1]) else s
  }

  /** The part before the first dot. */
  function UpToDot(s: string): string {
    if s == [] || s[0] == '.' then [] else [s[0]] + UpToDot(s[1..])
  }

  /** The part after the first dot. */
  function AfterDot(s: string): Option<string> {
    if s == [] then None else if s[0] == '.' then Some(s[1..]) else AfterDot(s[1..])
  }

  /** The second of the parts between dots, as a number; 0 if there is none. */
  function SecondPart(s: string): int {
    var rest := AfterDot(s);
    if rest.None? then 0
    else
      var minor := Atoi(UpToDot(rest.value));
      if minor.None? then 0 else minor.value
  }

  function Unquoted(s: string): string {
    TrimSpace(TrimQuotesRight(TrimQuotesLeft(s)))
  }

  /** The minor version of a milestone like "v1.36", or 0 if it has none. */
  function ParseMilestoneMinor(milestone: string): int {
    SecondPart(TrimPrefix(Unquoted(milestone), "v"))
  }

  lemma {:induction false} DigitsBeforeDot(s: string, rest: string)
    requires AllDigits(s) && (rest == [] || rest[0] == '.')
    ensures UpToDot(s + rest) == s
  {
    if s == [] {
      assert s + rest == rest;
    } else {
      assert (s + rest)[1..] == s[1..] + rest;
      DigitsBeforeDot(s[1..], rest);
    }
  }

  lemma {:induction false} AfterFirstDot(major: string, tail: string)
    requires '.' !in major
    ensures AfterDot(major + ['.'] + tail) == Some(tail)
  {
    var s := major + ['.'] + tail;
    if major == [] {
      assert s[1..] == tail;
    } else {
      assert s[1..] == major[1..] + ['.'] + tail;
      AfterFirstDot(major[1..], tail);
    }
  }

  lemma {:induction false} NoDotNoRest(s: string)
    requires '.' !in s
    ensures AfterDot(s) == None
  {
    if s != [] {
      NoDotNoRest(s[1..]);
    }
  }

  /** Between the first and the second dot, whatever comes before and after. */
  lemma {:induction false} SecondPartIs(major: string, n: nat, patch: string)
    requires '.' !in major && n <= MAX_INT && (patch == [] || patch[0] == '.')
    ensures SecondPart(major + ['.'] + (DecimalNat(n) + patch)) == n
  {
    AfterFirstDot(major, DecimalNat(n) + patch);
    DigitsBeforeDot(DecimalNat(n), patch);
    AtoiDecimal(n);
  }

  lemma DropV(body: string)
    ensures TrimPrefix(['v'] + body, "v") == body
    ensures body != [] && body[0] != 'v' ==> TrimPrefix(body, "v") == body
  {
    assert "v" == ['v'];
    assert ['v'] <= ['v'] + body;
  }

  /** Nothing to trim. */
  lemma Untrimmed(s: string)
    requires s != [] && Clean(s[0]) && Clean(s[|s| - 1])
    ensures Unquoted(s) == s
  {
    TrimSpaceFacts(s);
  }

  predicate Clean(c: char) {
    !IsSpace(c) && c != '"'
  }

  /** What may follow the minor version: nothing, or a dot and more. */
  predicate Patch(s: string) {
    s == [] || (s[0] == '.' && Clean(s[|s| - 1]))
  }

  /** The text of version 1.n, possibly with a patch level. */
  function Version(n: nat, patch: string): string {
    ['1', '.'] + (DecimalNat(n) + patch)
  }

  lemma VersionIsClean(n: nat, patch: string)
    requires Patch(patch)
    ensures Clean(Version(n, patch)[|Version(n, patch)| - 1])
  {
    var d := DecimalNat(n);
    assert IsDigit(d[|d| - 1]);
    if patch == [] {
      assert d + patch == d;
    }
  }

  /** A version is read back from the milestone that names it, with or without a "v". */
  lemma MinorRoundTrip(n: nat, patch: string)
    requires n <= MAX_INT && Patch(patch)
    ensures ParseMilestoneMinor(Version(n, patch)) == n
    ensures ParseMilestoneMinor(['v'] + Version(n, patch)) == n
  {
    var body := Version(n, patch);
    VersionIsClean(n, patch);
    Untrimmed(body);
    Untrimmed(['v'] + body);
    DropV(body);
    assert body == ['1'] + ['.'] + (DecimalNat(n) + patch);
    SecondPartIs(['1'], n, patch);
  }

  /** The major version plays no part. */
  lemma {:induction false} MajorPlaysNoPart(major: string, n: nat, patch: string)
    requires '.' !in major && n <= MAX_INT && Patch(patch)
    ensures ParseMilestoneMinor(['v'] + (major + ['.'] + (DecimalNat(n) + patch))) == n
  {
    var body := major + ['.'] + (DecimalNat(n) + patch);
    VersionIsClean(n, patch);
    assert body[|body| - 1] == Version(n, patch)[|Version(n, patch)| - 1];
    Untrimmed(['v'] + body);
    DropV(body);
    SecondPartIs(major, n, patch);
  }

  predicate AllQuotes(s: string) {
    forall i :: 0 <= i < |s| ==> s[i] == '"'
  }

  lemma {:induction false} QuotesOff(q: string, s: string, q': string)
    requires AllQuotes(q) && AllQuotes(q') && s != [] && s[0] != '"' && s[|s| - 1] != '"'
    ensures TrimQuotesRight(TrimQuotesLeft(q + s + q')) == s
    decreases |q| + |q'|
  {
    if q != [] {
      assert (q + s + q')[1..] == q[1..] + s + q';
      QuotesOff(q[1..], s, q');
    } else if q' != [] {
      assert q + s + q' == s + q';
      assert (s + q')[..|s + q'| - 1] == q + s + q'[..|q'| - 1];
      QuotesOff(q, s, q'[..|q'| - 1]);
      assert TrimQuotesLeft(q + s + q'[..|q'| - 1]) == q + s + q'[..|q'| - 1];
    } else {
      assert q + s + q' == s;
    }
  }

  /** Quotes around a milestone, and white space inside them, are taken off. */
  lemma UnquotedIs(q: string, pad: string, body: string, pad': string, q': string)
    requires AllQuotes(q) && AllQuotes(q') && Blank(pad) && Blank(pad')
    requires body != [] && Clean(body[0]) && Clean(body[|body| - 1])
    ensures Unquoted(q + (pad + body + pad') + q') == body
  {
    var s := pad + body + pad';
    assert !IsSpace('"');
    assert s[0] == (if pad == [] then body[0] else pad[0]);
    assert s[|s| - 1] == (if pad' == [] then body[|body| - 1] else pad'[|pad'| - 1]);
    QuotesOff(q, s, q');
    TrimPadded(pad, body, pad');
  }

  /** A quoted milestone reads as the bare one. */
  lemma QuotedMilestone(q: string, pad: string, body: string, pad': string, q': string)
    requires AllQuotes(q) && AllQuotes(q') && Blank(pad) && Blank(pad')
    requires body != [] && Clean(body[0]) && Clean(body[|body| - 1])
    ensures ParseMilestoneMinor(q + (pad + body + pad') + q') == ParseMilestoneMinor(body)
  {
    UnquotedIs(q, pad, body, pad', q');
    Untrimmed(body);
  }

  lemma {:induction false} QuotesLeftMembers(s: string)
    ensures forall c :: c in TrimQuotesLeft(s) ==> c in s
  {
    if s != [] && s[0] == '"' {
      QuotesLeftMembers(s[1..]);
    }
  }

  lemma {:induction false} QuotesRightMembers(s: string)
    ensures forall c :: c in TrimQuotesRight(s) ==> c in s
    decreases |s|
  {
    if s != [] && s[|s| - 1] == '"' {
      QuotesRightMembers(s[..|s| - 1]);
    }
  }

  /** A milestone without a dot has no minor version. */
  lemma NoDotNoMinor(milestone: string)
    requires '.' !in milestone
    ensures ParseMilestoneMinor(milestone) == 0
  {
    var left := TrimQuotesLeft(milestone);
    var bare := TrimQuotesRight(left);
    QuotesLeftMembers(milestone);
    QuotesRightMembers(left);
    var pad, pad' := TrimSplits(bare);
    var t := TrimSpace(bare);
    assert forall c :: c in t ==> c in bare;
    assert '.' !in TrimPrefix(t, "v");
    NoDotNoRest(TrimPrefix(t, "v"));
  }

  // ----- tags -----

  /** What a tag says: a minor version, and whether it marks that version as released. */
  datatype Tag = Tag(minor: int, released: bool)

  function ReadTag(name: string): Option<Tag> {
    var rest := TrimPrefix(name, "v");
    if rest == name then None
    else
      var minor := ParseMilestoneMinor(rest);
      if minor == 0 then None
      else
        var suffix := TrimPrefix(rest, "1." + Decimal(minor) + ".");
        Some(Tag(minor, suffix == "0" || HasPrefix(suffix, "0-rc.")))
  }

  /** The tag of version 1.n with a given suffix names minor version n, and marks it as
      released exactly when the suffix is that of the release or of a candidate. */
  lemma TagRoundTrip(n: nat, suffix: string)
    requires 0 < n <= MAX_INT && suffix != [] && Clean(suffix[|suffix| - 1])
    ensures ReadTag(['v'] + Version(n, ['.'] + suffix))
         == Some(Tag(n, suffix == "0" || HasPrefix(suffix, "0-rc.")))
  {
    var rest := Version(n, ['.'] + suffix);
    DropV(rest);
    assert ['v'] + rest != rest by {
      assert |['v'] + rest| == |rest| + 1;
    }
    MinorRoundTrip(n, ['.'] + suffix);
    DropVersion(n, suffix);
  }

  /** A name without a leading "v" is no tag of a version. */
  lemma OnlyVersionTags(name: string)
    requires name == [] || name[0] != 'v'
    ensures ReadTag(name) == None
  {
    assert "v" == ['v'];
  }

  lemma DropVersion(n: nat, suffix: string)
    ensures TrimPrefix(Version(n, ['.'] + suffix), "1." + Decimal(n) + ".") == suffix
  {
    var prefix := "1." + Decimal(n) + ".";
    assert Version(n, ['.'] + suffix) == prefix + suffix;
  }

  // ----- the upcoming release -----

  /** What a list of tag names says, all together. */
  function ReadAll(names: seq<string>): set<Tag> {
    if names == [] then {}
    else
      var last := ReadTag(names[|names| - 1]);
      ReadAll(names[..|names| - 1]) + if last.Some? then {last.value} else {}
  }

  /** Some name of the list reads as t. */
  ghost predicate Reads(read: string -> Option<Tag>, names: seq<string>, t: Tag) {
    exists i :: 0 <= i < |names| && read(names[i]) == Some(t)
  }

  lemma ReadsStep(read: string -> Option<Tag>, names: seq<string>, t: Tag)
    requires names != []
    ensures Reads(read, names, t)
       <==> Reads(read, names[..|names| - 1], t) || read(names[|names| - 1]) == Some(t)
  {
    var rest := names[..|names| - 1];
    if Reads(read, rest, t) {
      var i :| 0 <= i < |rest| && read(rest[i]) == Some(t);
      assert read(names[i]) == Some(t);
    }
    if Reads(read, names, t) {
      var i :| 0 <= i < |names| && read(names[i]) == Some(t);
      if i < |rest| {
        assert read(rest[i]) == Some(t);
      }
    }
  }

  lemma {:induction false} ReadAllMember(names: seq<string>, t: Tag)
    ensures t in ReadAll(names) <==> Reads(ReadTag, names, t)
    decreases |names|
  {
    if names != [] {
      ReadAllMember(names[..|names| - 1], t);
      ReadsStep(ReadTag, names, t);
    }
  }

  /** The list more has every name of the list names. */
  ghost predicate Extends(more: seq<string>, names: seq<string>) {
    forall s :: s in names ==> s in more
  }

  lemma {:induction false} ReadAllSubset(names: seq<string>, more: seq<string>)
    requires Extends(more, names)
    ensures ReadAll(names) <= ReadAll(more)
  {
    forall t | t in ReadAll(names)
      ensures t in ReadAll(more)
    {
      ReadAllMember(names, t);
      ReadAllMember(more, t);
      var i :| 0 <= i < |names| && ReadTag(names[i]) == Some(t);
      assert names[i] in more;
      var k :| 0 <= k < |more| && more[k] == names[i];
    }
  }

  /** Some tag names minor version m. */
  predicate Names(tags: set<Tag>, m: int) {
    Tag(m, true) in tags || Tag(m, false) in tags
  }

  /** m is the highest minor version named, and it is positive. */
  ghost predicate IsHighest(tags: set<Tag>, m: int) {
    m > 0 && Names(tags, m) && forall k :: Names(tags, k) ==> k <= m
  }

  /** The next minor version, in 64-bit arithmetic. */
  function After(m: int): int {
    if m == MAX_INT then MIN_INT else m + 1
  }

  /** What tags say about the upcoming minor version: the one after the highest version named
      if that is released, else that version itself; none if no tag names a positive one. */
  ghost predicate IsUpcoming(tags: set<Tag>, r: Option<int>) {
    match r
    case None => forall m :: Names(tags, m) ==> m <= 0
    case Some(n) => exists m :: IsHighest(tags, m) && n == if Tag(m, true) in tags then After(m) else m
  }

  /** With m the highest version that the tags name: if it is not released it is the upcoming one,
      else its successor is. */
  lemma UpcomingIs(tags: set<Tag>, m: int, r: Option<int>)
    requires 0 < m < MAX_INT && IsUpcoming(tags, r)
    requires (Tag(m, true) in tags || Tag(m, false) in tags) && forall t :: t in tags ==> t.minor <= m
    ensures Tag(m, true) !in tags ==> r == Some(m)
    ensures Tag(m, true) in tags ==> r == Some(m + 1)
  {
    assert Names(tags, m);
    forall k | Names(tags, k)
      ensures k <= m
    {
      assert Tag(k, true) in tags || Tag(k, false) in tags;
    }
    assert IsHighest(tags, m);
  }

  /** Collects the minor versions seen and released, then takes the highest, in whatever
      order the set is walked. */
  method UpcomingMinor(names: seq<string>) returns (r: Option<int>)
    ensures IsUpcoming(ReadAll(names), r)
  {
    var seen, released := CollectTags(names);
    var maxMinor := Highest(seen);
    if maxMinor == 0 {
      return None;
    }
    assert IsHighest(ReadAll(names), maxMinor);
    if maxMinor in released {
      r := Some(After(maxMinor));
    } else {
      r := Some(maxMinor);
    }
  }

  method CollectTags(names: seq<string>) returns (seen: set<int>, released: set<int>)
    ensures forall m :: m in seen <==> Names(ReadAll(names), m)
    ensures forall m :: m in released <==> Tag(m, true) in ReadAll(names)
  {
    seen, released := {}, {};
    for i := 0 to |names|
      invariant forall m :: m in seen <==> Names(ReadAll(names[..i]), m)
      invariant forall m :: m in released <==> Tag(m, true) in ReadAll(names[..i])
    {
      assert names[..i + 1][..i] == names[..i];
      var t := ReadTag(names[i]);
      if t.Some? {
        seen := seen + {t.value.minor};
        if t.value.released {
          released := released + {t.value.minor};
        }
      }
    }
    assert names[..|names|] == names;
  }

  /** The answer depends on the tags only as a set: not on their order, nor on repetition. */
  lemma {:induction false} UpcomingIgnoresOrder(a: seq<string>, b: seq<string>, r: Option<int>, r': Option<int>)
    requires Extends(a, b) && Extends(b, a)
    requires IsUpcoming(ReadAll(a), r) && IsUpcoming(ReadAll(b), r')
    ensures r == r'
  {
    ReadAllSubset(a, b);
    ReadAllSubset(b, a);
    assert ReadAll(a) == ReadAll(b);
  }

  /** The highest version is released and has no successor in 64 bits. */
  ghost predicate Overflows(tags: set<Tag>) {
    Tag(MAX_INT, true) in tags
  }

  ghost predicate InRange(tags: set<Tag>) {
    forall t :: t in tags ==> MIN_INT <= t.minor <= MAX_INT
  }

  lemma {:induction false} ReadAllInRange(names: seq<string>)
    ensures InRange(ReadAll(names))
    decreases |names|
  {
    if names != [] {
      ReadAllInRange(names[..|names| - 1]);
      MinorInRange(names[|names| - 1]);
    }
  }

  lemma MinorInRange(name: string)
    ensures ReadTag(name).Some? ==> MIN_INT <= ReadTag(name).value.minor <= MAX_INT
  {
  }
}
