/** What more tags do to the inferred upcoming release. */
module ReleaseGrowth {
  import opened Options
  import opened Releases

  lemma SetsExactlyWhen(tags: set<Tag>, more: set<Tag>, n: int, n': int)
    requires InRange(more) && tags <= more
    requires IsUpcoming(tags, Some(n)) && IsUpcoming(more, Some(n'))
    ensures n <= n' <==> (Overflows(more) ==> Overflows(tags))
  {
    var m :| IsHighest(tags, m) && n == if Tag(m, true) in tags then After(m) else m;
    var m' :| IsHighest(more, m') && n' == if Tag(m', true) in more then After(m') else m';
    assert Names(more, m);
    assert m' <= MAX_INT by {
      assert Tag(m', true) in more || Tag(m', false) in more;
    }
    assert Overflows(more) ==> Names(more, MAX_INT);
    assert Overflows(tags) ==> Names(tags, MAX_INT);
  }

  /** More tags never lower the answer, exactly unless they make it overflow. */
  lemma {:induction false} MoreTagsExactlyWhen(names: seq<string>, more: seq<string>, n: int, n': int)
    requires Extends(more, names)
    requires IsUpcoming(ReadAll(names), Some(n)) && IsUpcoming(ReadAll(more), Some(n'))
    ensures n <= n' <==> (Overflows(ReadAll(more)) ==> Overflows(ReadAll(names)))
  {
    ReadAllSubset(names, more);
    ReadAllInRange(more);
    SetsExactlyWhen(ReadAll(names), ReadAll(more), n, n');
  }

  /** Once tags name an upcoming version, more tags do too. */
  lemma {:induction false} MoreTagsStillUpcoming(names: seq<string>, more: seq<string>, n: int)
    requires Extends(more, names)
    requires IsUpcoming(ReadAll(names), Some(n))
    ensures !IsUpcoming(ReadAll(more), None)
  {
    ReadAllSubset(names, more);
    var m :| IsHighest(ReadAll(names), m);
    assert Names(ReadAll(more), m);
  }

  /** The tag of the release 1.n.0. */
  function ReleaseTag(n: nat): string {
    ['v'] + Version(n, ['.'] + "0")
  }

  /** With 1.n released, the tag of the release with the largest 64-bit number turns the answer
      from n+1 into the smallest. */
  lemma MoreTagsCanLower(n: nat, top: nat)
    requires 0 < n < top == MAX_INT
    ensures IsUpcoming(ReadAll([ReleaseTag(n)]), Some(n + 1))
    ensures IsUpcoming(ReadAll([ReleaseTag(n), ReleaseTag(top)]), Some(MIN_INT))
  {
    ReadReleaseTag(n);
    ReadReleaseTag(top);
    ReadOneAndTwo(ReleaseTag(n), ReleaseTag(top), Tag(n, true), Tag(top, true));
    UpcomingWrapsAround(n, top);
  }

  lemma ReadReleaseTag(n: nat)
    requires 0 < n <= MAX_INT
    ensures ReadTag(ReleaseTag(n)) == Some(Tag(n, true))
  {
    TagRoundTrip(n, "0");
  }

  lemma UpcomingWrapsAround(n: nat, top: nat)
    requires 0 < n < top == MAX_INT
    ensures IsUpcoming({Tag(n, true)}, Some(n + 1))
    ensures IsUpcoming({Tag(n, true), Tag(top, true)}, Some(MIN_INT))
  {
    assert IsHighest({Tag(n, true)}, n);
    assert IsHighest({Tag(n, true), Tag(top, true)}, top);
  }

  lemma {:induction false} ReadOneAndTwo(a: string, b: string, s: Tag, t: Tag)
    requires ReadTag(a) == Some(s) && ReadTag(b) == Some(t)
    ensures ReadAll([a]) == {s} && ReadAll([a, b]) == {s, t}
  {
    assert [a][..0] == [] && [a, b][..1] == [a];
  }
}
