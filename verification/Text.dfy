/** The string operations that the KEP tools are written with. */
module Text {

  /** White space as the Go standard library sees it. */
  predicate IsSpace(c: char) {
    var x := c as int;
    x == 0x20 || 0x09 <= x <= 0x0D || x == 0x85 || x == 0xA0 || x == 0x1680 || 0x2000 <= x <= 0x200A
    || x == 0x2028 || x == 0x2029 || x == 0x202F || x == 0x205F || x == 0x3000
  }

  function TrimLeft(s: string): string {
    if s != [] && IsSpace(s[0]) then TrimLeft(s[1..]) else s
  }

  function TrimRight(s: string): string {
    if s != [] && IsSpace(s[|s| - 1]) then TrimRight(s[..|s| - 1]) else s
  }

  function TrimSpace(s: string): string {
    TrimRight(TrimLeft(s))
  }

  function TrimPrefix(s: string, prefix: string): string {
    if prefix <= s then s[|prefix|..] else s
  }

  function LowerChar(c: char): char {
    if 'A' <= c <= 'Z' then ((c as int) + 32) as char else c
  }

  /** Lower case, letter by letter. */
  function ToLower(s: string): (t: string)
    ensures |t| == |s| && forall i :: 0 <= i < |s| ==> t[i] == LowerChar(s[i])
  {
    if s == [] then [] else [LowerChar(s[0])] + ToLower(s[1..])
  }

  /** No white space at either end. */
  predicate Trimmed(s: string) {
    s == [] || (!IsSpace(s[0]) && !IsSpace(s[|s| - 1]))
  }

  lemma {:induction false} TrimRightFacts(s: string)
    ensures TrimRight(s) <= s
    ensures TrimRight(s) != [] ==> !IsSpace(TrimRight(s)[|TrimRight(s)| - 1])
    decreases |s|
  {
    if s != [] && IsSpace(s[|s| - 1]) {
      TrimRightFacts(s[..|s| - 1]);
    }
  }

  lemma {:induction false} TrimLeftFacts(s: string)
    ensures |TrimLeft(s)| <= |s|
    ensures TrimLeft(s) != [] ==> !IsSpace(TrimLeft(s)[0])
    ensures |TrimLeft(s)| == |s| ==> TrimLeft(s) == s
  {
    if s != [] && IsSpace(s[0]) {
      TrimLeftFacts(s[1..]);
    }
  }

  /** Trimming yields a trimmed string, and changes exactly the others. */
  lemma TrimSpaceFacts(s: string)
    ensures Trimmed(TrimSpace(s)) && |TrimSpace(s)| <= |s|
    ensures TrimSpace(s) == s <==> Trimmed(s)
    ensures TrimSpace(s) == s <==> |TrimSpace(s)| == |s|
  {
    TrimLeftFacts(s);
    TrimRightFacts(TrimLeft(s));
  }

  predicate Blank(s: string) {
    forall i :: 0 <= i < |s| ==> IsSpace(s[i])
  }

  lemma {:induction false} TrimLeftPadded(pad: string, t: string)
    requires Blank(pad) && (t == [] || !IsSpace(t[0]))
    ensures TrimLeft(pad + t) == t
  {
    if pad == [] {
      assert pad + t == t;
    } else {
      assert (pad + t)[1..] == pad[1..] + t;
      TrimLeftPadded(pad[1..], t);
    }
  }

  lemma {:induction false} TrimRightPadded(t: string, pad: string)
    requires Blank(pad) && (t == [] || !IsSpace(t[|t| - 1]))
    ensures TrimRight(t + pad) == t
    decreases |pad|
  {
    if pad == [] {
      assert t + pad == t;
    } else {
      assert (t + pad)[..|t + pad| - 1] == t + pad[..|pad| - 1];
      TrimRightPadded(t, pad[..|pad| - 1]);
    }
  }

  lemma {:induction false} TrimLeftBlank(s: string)
    requires Blank(s)
    ensures TrimLeft(s) == []
  {
    if s != [] {
      TrimLeftBlank(s[1..]);
    }
  }

  /** Trimming removes the white space around a trimmed text, and nothing else. */
  lemma TrimPadded(pad: string, t: string, pad': string)
    requires Blank(pad) && Trimmed(t) && Blank(pad')
    ensures TrimSpace(pad + t + pad') == t
  {
    if t == [] {
      assert pad + t + pad' == pad + pad';
      TrimLeftBlank(pad + pad');
    } else {
      assert pad + t + pad' == pad + (t + pad');
      TrimLeftPadded(pad, t + pad');
      TrimRightPadded(t, pad');
    }
  }

  lemma {:induction false} TrimLeftSplits(s: string) returns (pad: string)
    ensures Blank(pad) && s == pad + TrimLeft(s)
  {
    if s != [] && IsSpace(s[0]) {
      var rest := TrimLeftSplits(s[1..]);
      pad := [s[0]] + rest;
      assert s == [s[0]] + s[1..];
    } else {
      pad := [];
    }
  }

  lemma {:induction false} TrimRightSplits(s: string) returns (pad: string)
    ensures Blank(pad) && s == TrimRight(s) + pad
    decreases |s|
  {
    if s != [] && IsSpace(s[|s| - 1]) {
      var rest := TrimRightSplits(s[..|s| - 1]);
      pad := rest + [s[|s| - 1]];
      assert s == s[..|s| - 1] + [s[|s| - 1]];
    } else {
      pad := [];
    }
  }

  /** Every text is what trimming leaves of it, with white space around. */
  lemma TrimSplits(s: string) returns (pad: string, pad': string)
    ensures Blank(pad) && Blank(pad') && s == pad + TrimSpace(s) + pad'
  {
    pad := TrimLeftSplits(s);
    pad' := TrimRightSplits(TrimLeft(s));
  }

  lemma LowerFacts(c: char)
    ensures LowerChar(LowerChar(c)) == LowerChar(c)
    ensures IsSpace(LowerChar(c)) == IsSpace(c)
    ensures (LowerChar(c) == '@') == (c == '@')
  {
  }

  predicate HasPrefix(s: string, prefix: string) {
    prefix <= s
  }

  /** Does needle occur in s? */
  predicate Contains(s: string, needle: string) {
    needle <= s || (s != [] && Contains(s[1..], needle))
  }

  /** needle is found in s at position k. */
  predicate FoundAt(s: string, needle: string, k: nat) {
    k + |needle| <= |s| && s[k..k + |needle|] == needle
  }

  lemma {:induction false} FoundWhenContained(s: string, needle: string) returns (k: nat)
    requires Contains(s, needle)
    ensures FoundAt(s, needle, k)
  {
    if needle <= s {
      k := 0;
    } else {
      var k' := FoundWhenContained(s[1..], needle);
      k := k' + 1;
      assert s[k..k + |needle|] == s[1..][k'..k' + |needle|];
    }
  }

  lemma {:induction false} ContainedWhenFound(s: string, needle: string, k: nat)
    requires FoundAt(s, needle, k)
    ensures Contains(s, needle)
    decreases k
  {
    if k == 0 {
      assert s[..|needle|] == needle;
    } else if s != [] {
      assert s[1..][k - 1..k - 1 + |needle|] == s[k..k + |needle|];
      ContainedWhenFound(s[1..], needle, k - 1);
    }
  }

  /** A text contains what is found in it somewhere. */
  lemma {:induction false} ContainsExactlyWhen(s: string, needle: string)
    ensures Contains(s, needle) <==> exists k: nat :: FoundAt(s, needle, k)
  {
    if Contains(s, needle) {
      var k := FoundWhenContained(s, needle);
    }
    if k: nat :| FoundAt(s, needle, k) {
      ContainedWhenFound(s, needle, k);
    }
  }
}
