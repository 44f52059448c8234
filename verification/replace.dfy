/** The text replacement that `cloneProductVersion` applies to a version file:
    bytes.Replace(input, []byte(srcVersion), []byte(dstVersion), -1). */
module Replace {
  import opened Common

  /** Go's []byte(s): the UTF-8 encoding of a string. */
  function Utf8(s: string): (b: Bytes)
    ensures |s| <= |b| <= 4 * |s|
  {
    if s == [] then []
    else
      var c := s[0] as int;
      var head: Bytes :=
        if c < 0x80 then [c as byte]
        else if c < 0x800 then [(0xC0 + c / 0x40) as byte, (0x80 + c % 0x40) as byte]
        else if c < 0x1_0000 then
          [(0xE0 + c / 0x1000) as byte, (0x80 + (c / 0x40) % 0x40) as byte, (0x80 + c % 0x40) as byte]
        else
          [(0xF0 + c / 0x4_0000) as byte, (0x80 + (c / 0x1000) % 0x40) as byte,
           (0x80 + (c / 0x40) % 0x40) as byte, (0x80 + c % 0x40) as byte];
      head + Utf8(s[1..])
  }

  /** `pat` occurs in `s` at position `i`. */
  predicate OccursAt(s: Bytes, pat: Bytes, i: int)
  {
    0 <= i <= |s| - |pat| && s[i..i + |pat|] == pat
  }

  /** bytes.Replace with n = -1: every occurrence of `pat`, scanning left to right
      and resuming after each replaced occurrence, is replaced by `rep`. */
  function ReplaceAll(s: Bytes, pat: Bytes, rep: Bytes): Bytes
    requires |pat| > 0
    decreases |s|
  {
    if |s| < |pat| then s
    else if s[..|pat|] == pat then rep + ReplaceAll(s[|pat|..], pat, rep)
    else [s[0]] + ReplaceAll(s[1..], pat, rep)
  }

  /** bytes.Index: the position where the scan first finds `pat`, or -1. */
  function Index(s: Bytes, pat: Bytes): (k: int)
    ensures k == -1 || (0 <= k && k + |pat| <= |s|)
    decreases |s|
  {
    if |s| >= |pat| && s[..|pat|] == pat then 0
    else if s == [] then -1
    else
      var k := Index(s[1..], pat);
      if k < 0 then -1 else k + 1
  }

  lemma OccursAtStart(s: Bytes, pat: Bytes)
    ensures OccursAt(s, pat, 0) <==> |s| >= |pat| && s[..|pat|] == pat
  {
    if |s| >= |pat| {
      assert s[0..|pat|] == s[..|pat|];
    }
  }

  /** An occurrence in the tail is an occurrence one position further in the whole. */
  lemma OccursInTail(s: Bytes, pat: Bytes, i: int)
    requires s != [] && 0 <= i
    ensures OccursAt(s[1..], pat, i) <==> OccursAt(s, pat, i + 1)
  {
    if 0 <= i <= |s| - 1 - |pat| {
      assert s[1..][i..i + |pat|] == s[i + 1..i + 1 + |pat|];
    }
  }

  /** Index finds the first occurrence, and -1 means there is none. */
  lemma {:induction false} IndexIsFirst(s: Bytes, pat: Bytes)
    ensures Index(s, pat) == -1 <==> forall i :: 0 <= i <= |s| ==> !OccursAt(s, pat, i)
    ensures Index(s, pat) >= 0 ==>
              OccursAt(s, pat, Index(s, pat)) && forall i :: 0 <= i < Index(s, pat) ==> !OccursAt(s, pat, i)
    decreases |s|
  {
    OccursAtStart(s, pat);
    if !OccursAt(s, pat, 0) && s != [] {
      IndexIsFirst(s[1..], pat);
      forall i | 1 <= i <= |s|
        ensures OccursAt(s, pat, i) <==> OccursAt(s[1..], pat, i - 1)
      {
        OccursInTail(s, pat, i - 1);
      }
      var k := Index(s[1..], pat);
      if k >= 0 {
        assert OccursAt(s, pat, k + 1);
      }
    }
  }

  /** Text without an occurrence of the pattern comes back unchanged. */
  lemma {:induction false} ReplaceWithoutOccurrence(s: Bytes, pat: Bytes, rep: Bytes)
    requires |pat| > 0
    requires forall i :: 0 <= i <= |s| ==> !OccursAt(s, pat, i)
    ensures ReplaceAll(s, pat, rep) == s
    decreases |s|
  {
    if |s| >= |pat| {
      var t := s[1..];
      OccursAtStart(s, pat);
      forall i | 0 <= i <= |t|
        ensures !OccursAt(t, pat, i)
      {
        OccursInTail(s, pat, i);
      }
      ReplaceWithoutOccurrence(t, pat, rep);
      assert s == [s[0]] + t;
    }
  }

  lemma SeqAssoc(a: Bytes, b: Bytes, c: Bytes, d: Bytes)
    ensures a + (b + c + d) == (a + b) + c + d
  {
  }

  /** No occurrence at the start: the first byte is copied. */
  lemma ReplaceSkipsByte(s: Bytes, pat: Bytes, rep: Bytes)
    requires |pat| > 0 && |s| >= |pat| && s[..|pat|] != pat
    ensures ReplaceAll(s, pat, rep) == [s[0]] + ReplaceAll(s[1..], pat, rep)
  {
  }

  /** A first occurrence at `k > 0` is a first occurrence at `k - 1` of the tail. */
  lemma FirstOccurrenceInTail(s: Bytes, pat: Bytes, k: nat)
    requires 0 < k && OccursAt(s, pat, k)
    requires forall i :: 0 <= i < k ==> !OccursAt(s, pat, i)
    ensures k + |pat| <= |s| && s[..|pat|] != pat
    ensures OccursAt(s[1..], pat, k - 1)
    ensures forall i :: 0 <= i < k - 1 ==> !OccursAt(s[1..], pat, i)
  {
    assert !OccursAt(s, pat, 0);
    OccursAtStart(s, pat);
    OccursInTail(s, pat, k - 1);
    forall i | 0 <= i < k - 1
      ensures !OccursAt(s[1..], pat, i)
    {
      OccursInTail(s, pat, i);
    }
  }

  lemma EmptyPrefix(a: Bytes, b: Bytes, c: Bytes)
    ensures a[..0] + b + c == b + c
  {
    assert a[..0] == [];
  }

  /** The replacement of `s` copies `s[..k]`, emits `rep` in place of the `|pat|`
      bytes at `k`, and goes on after them. */
  predicate ReplacesAt(s: Bytes, pat: Bytes, rep: Bytes, k: nat)
    requires |pat| > 0 && k + |pat| <= |s|
  {
    ReplaceAll(s, pat, rep) == s[..k] + rep + ReplaceAll(s[k + |pat|..], pat, rep)
  }

  /** An occurrence at the start is replaced and the scan resumes after it. */
  lemma ReplaceAtStart(s: Bytes, pat: Bytes, rep: Bytes)
    requires |pat| > 0 && |s| >= |pat| && s[..|pat|] == pat
    ensures ReplacesAt(s, pat, rep, 0)
  {
    assert ReplaceAll(s, pat, rep) == rep + ReplaceAll(s[|pat|..], pat, rep);
    EmptyPrefix(s, rep, ReplaceAll(s[|pat|..], pat, rep));
  }

  /** One step of the scan before the first occurrence: what the tail's replacement
      gives, preceded by the copied first byte. */
  lemma ReplaceFromFirstStep(s: Bytes, pat: Bytes, rep: Bytes, k: nat)
    requires |pat| > 0 && 0 < k && k + |pat| <= |s| && s[..|pat|] != pat
    requires ReplacesAt(s[1..], pat, rep, k - 1)
    ensures ReplacesAt(s, pat, rep, k)
  {
    var rest := ReplaceAll(s[k + |pat|..], pat, rep);
    assert s[1..][k - 1 + |pat|..] == s[k + |pat|..];
    ReplaceSkipsByte(s, pat, rep);
    assert s[..k] == [s[0]] + s[1..][..k - 1];
    SeqAssoc([s[0]], s[1..][..k - 1], rep, rest);
  }

  /** Up to the first occurrence at `k` the text is copied, the occurrence becomes
      `rep`, and the scan goes on after it. */
  lemma {:induction false} ReplaceFromFirst(s: Bytes, pat: Bytes, rep: Bytes, k: nat)
    requires |pat| > 0 && OccursAt(s, pat, k)
    requires forall i :: 0 <= i < k ==> !OccursAt(s, pat, i)
    ensures k + |pat| <= |s| && ReplacesAt(s, pat, rep, k)
    decreases k
  {
    if k == 0 {
      OccursAtStart(s, pat);
      ReplaceAtStart(s, pat, rep);
    } else {
      FirstOccurrenceInTail(s, pat, k);
      ReplaceFromFirst(s[1..], pat, rep, k - 1);
      ReplaceFromFirstStep(s, pat, rep, k);
    }
  }

  /** The replacement agrees with the search-and-copy loop of bytes.Replace: copy up
      to the first occurrence, emit the replacement, continue after the occurrence;
      with no occurrence left, copy the rest. */
  lemma ReplaceAtFirstOccurrence(s: Bytes, pat: Bytes, rep: Bytes)
    requires |pat| > 0
    ensures Index(s, pat) < 0 ==> ReplaceAll(s, pat, rep) == s
    ensures Index(s, pat) >= 0 ==>
              var k := Index(s, pat);
              ReplaceAll(s, pat, rep) == s[..k] + rep + ReplaceAll(s[k + |pat|..], pat, rep)
  {
    IndexIsFirst(s, pat);
    var k := Index(s, pat);
    if k < 0 {
      ReplaceWithoutOccurrence(s, pat, rep);
    } else {
      ReplaceFromFirst(s, pat, rep, k);
    }
  }

  /** Replacing a pattern by itself changes nothing. */
  lemma {:induction false} ReplaceByItself(s: Bytes, pat: Bytes)
    requires |pat| > 0
    ensures ReplaceAll(s, pat, pat) == s
    decreases |s|
  {
    if |s| >= |pat| {
      if s[..|pat|] == pat {
        ReplaceByItself(s[|pat|..], pat);
        assert s == pat + s[|pat|..];
      } else {
        ReplaceByItself(s[1..], pat);
        assert s == [s[0]] + s[1..];
      }
    }
  }

  /** Number of occurrences the left-to-right scan replaces. */
  function Replaced(s: Bytes, pat: Bytes): nat
    requires |pat| > 0
    decreases |s|
  {
    if |s| < |pat| then 0
    else if s[..|pat|] == pat then 1 + Replaced(s[|pat|..], pat)
    else Replaced(s[1..], pat)
  }

  lemma Distribute(n: int, d: int)
    ensures (1 + n) * d == d + n * d
  {
  }

  /** Each replaced occurrence changes the length by |rep| - |pat|. */
  lemma {:induction false} ReplaceLength(s: Bytes, pat: Bytes, rep: Bytes)
    requires |pat| > 0
    ensures |ReplaceAll(s, pat, rep)| == |s| + Replaced(s, pat) * (|rep| - |pat|)
    decreases |s|
  {
    if |s| >= |pat| {
      if s[..|pat|] == pat {
        var rest := s[|pat|..];
        ReplaceLength(rest, pat, rep);
        Distribute(Replaced(rest, pat), |rep| - |pat|);
        assert |s| == |pat| + |rest|;
      } else {
        ReplaceLength(s[1..], pat, rep);
      }
    }
  }
}
