/**
 * The two Python string operations the bridge applies to every serial line,
 * `str.strip()` and `str.lower()`, restricted to ASCII.
 */
module PyStr {

  /** The ASCII characters Python's `str.isspace()` accepts: `\t \n \v \f \r`
      (9 to 13), the separators 0x1C to 0x1F, and the space (32). */
  predicate IsSpace(c: char) {
    '\t' <= c <= '\r' || (28 <= c as int <= 31) || c == ' '
  }

  predicate AllSpace(s: string) {
    forall i :: 0 <= i < |s| ==> IsSpace(s[i])
  }

  /** Neither the first nor the last character of s is whitespace. */
  predicate Unpadded(s: string) {
    s == [] || (!IsSpace(s[0]) && !IsSpace(s[|s| - 1]))
  }

  /** Every character of s from position lo up to hi (excluded) is whitespace. */
  predicate SpaceBetween(s: string, lo: nat, hi: nat)
    requires lo <= hi <= |s|
  {
    forall j :: lo <= j < hi ==> IsSpace(s[j])
  }

  /** The first position at or after i that holds no whitespace, or |s|. */
  function SkipSpace(s: string, i: nat): (k: nat)
    requires i <= |s|
    ensures i <= k <= |s|
    ensures SpaceBetween(s, i, k)
    ensures k < |s| ==> !IsSpace(s[k])
    decreases |s| - i
  {
    if i == |s| || !IsSpace(s[i]) then i else SkipSpace(s, i + 1)
  }

  /** Where the text of s[lo..hi] ends once its trailing whitespace is dropped. */
  function TextEnd(s: string, lo: nat, hi: nat): (k: nat)
    requires lo <= hi <= |s|
    ensures lo <= k <= hi
    ensures SpaceBetween(s, k, hi)
    ensures lo < k ==> !IsSpace(s[k - 1])
    decreases hi - lo
  {
    if hi == lo || !IsSpace(s[hi - 1]) then hi else TextEnd(s, lo, hi - 1)
  }

  /** `s.strip()`: the text of s between its leading and its trailing
      whitespace; StripSplits and StripUnique state it in full. */
  function Strip(s: string): (r: string)
    ensures Unpadded(r)
    ensures |r| <= |s|
  {
    var start := SkipSpace(s, 0);
    s[start..TextEnd(s, start, |s|)]
  }

  /** s is whitespace, then Strip(s), then whitespace. */
  lemma StripSplits(s: string)
    ensures exists front, back ::
      && s == front + Strip(s) + back
      && AllSpace(front) && AllSpace(back)
  {
    var start := SkipSpace(s, 0);
    var end := TextEnd(s, start, |s|);
    var front, back := s[..start], s[end..];
    assert s == front + Strip(s) + back;
    assert AllSpace(front) by {
      forall i | 0 <= i < |front| ensures IsSpace(front[i]) {
        assert front[i] == s[i];
      }
    }
    assert AllSpace(back) by {
      forall i | 0 <= i < |back| ensures IsSpace(back[i]) {
        assert back[i] == s[end + i];
      }
    }
  }

  /** SkipSpace(s, i) is k whenever s holds whitespace from i up to k and
      no whitespace at k. */
  lemma {:induction false} SkipSpaceExact(s: string, i: nat, k: nat)
    requires i <= k <= |s| && SpaceBetween(s, i, k)
    requires k < |s| ==> !IsSpace(s[k])
    ensures SkipSpace(s, i) == k
    decreases k - i
  {
    if i < k {
      SkipSpaceExact(s, i + 1, k);
    }
  }

  /** TextEnd(s, lo, hi) is k whenever s holds whitespace from k up to hi
      and, past lo, no whitespace just before k. */
  lemma {:induction false} TextEndExact(s: string, lo: nat, hi: nat, k: nat)
    requires lo <= k <= hi <= |s| && SpaceBetween(s, k, hi)
    requires lo < k ==> !IsSpace(s[k - 1])
    ensures TextEnd(s, lo, hi) == k
    decreases hi - k
  {
    if k < hi {
      TextEndExact(s, lo, hi - 1, k);
    }
  }

  /** The decomposition of StripSplits has only one middle: whitespace + r
      + whitespace with r unpadded forces Strip to return r. */
  lemma StripUnique(s: string, front: string, r: string, back: string)
    requires s == front + r + back
    requires AllSpace(front) && AllSpace(back) && Unpadded(r)
    ensures Strip(s) == r
  {
    if r == [] {
      assert forall j :: 0 <= j < |s| ==> s[j] == if j < |front| then front[j] else back[j - |front|];
      SkipSpaceExact(s, 0, |s|);
    } else {
      var start, end := |front|, |front| + |r|;
      assert forall j :: 0 <= j < start ==> s[j] == front[j];
      assert s[start] == r[0];
      SkipSpaceExact(s, 0, start);
      assert forall j :: end <= j < |s| ==> s[j] == back[j - end];
      assert s[end - 1] == r[|r| - 1];
      TextEndExact(s, start, |s|, end);
      assert s[start..end] == r;
    }
  }

  /** A string with no surrounding whitespace strips to itself. */
  lemma StripUnpadded(s: string)
    requires Unpadded(s)
    ensures Strip(s) == s
  {
    StripUnique(s, [], s, []);
  }

  /** Stripping twice is stripping once. */
  lemma StripIdempotent(s: string)
    ensures Strip(Strip(s)) == Strip(s)
  {
    StripUnpadded(Strip(s));
  }

  /** A line strips to nothing exactly when it is all whitespace. */
  lemma StripEmptyIff(s: string)
    ensures Strip(s) == [] <==> AllSpace(s)
  {
    if AllSpace(s) {
      StripUnique(s, s, [], []);
    }
  }

  predicate IsUpper(c: char) {
    'A' <= c <= 'Z'
  }

  predicate NoUpper(s: string) {
    forall i :: 0 <= i < |s| ==> !IsUpper(s[i])
  }

  /** x and y are the same character, or the upper- and lower-case forms of
      one ASCII letter. */
  predicate CaseVariants(x: char, y: char) {
    x == y
    || (IsUpper(x) && y as int == x as int + 32)
    || (IsUpper(y) && x as int == y as int + 32)
  }

  /** a and b spell the same word up to the case of ASCII letters. */
  predicate EqualIgnoringCase(a: string, b: string) {
    |a| == |b| && forall i :: 0 <= i < |a| ==> CaseVariants(a[i], b[i])
  }

  function LowerChar(c: char): char {
    if IsUpper(c) then (c as int + 32) as char else c
  }

  /** `s.lower()` on ASCII: the same word as s, with no upper-case letter left. */
  function Lower(s: string): (r: string)
    ensures NoUpper(r)
    ensures EqualIgnoringCase(s, r)
  {
    seq(|s|, i requires 0 <= i < |s| => LowerChar(s[i]))
  }

  /** Lower's contract determines its result. */
  lemma LowerUnique(s: string, t: string)
    requires EqualIgnoringCase(s, t) && NoUpper(t)
    ensures Lower(s) == t
  {
    forall i | 0 <= i < |s|
      ensures Lower(s)[i] == t[i]
    {
      assert CaseVariants(s[i], t[i]) && !IsUpper(t[i]);
    }
  }

  /** Lower-casing a string without upper-case letters changes nothing;
      in particular lower-casing twice is lower-casing once. */
  lemma LowerOfLowercase(s: string)
    requires NoUpper(s)
    ensures Lower(s) == s
  {
    LowerUnique(s, s);
  }

  lemma LowerIdempotent(s: string)
    ensures Lower(Lower(s)) == Lower(s)
  {
    LowerOfLowercase(Lower(s));
  }

  /** Two strings lower-case to the same string exactly when they differ
      only in the case of their letters. */
  lemma LowerEqualIff(a: string, b: string)
    ensures Lower(a) == Lower(b) <==> EqualIgnoringCase(a, b)
  {
    if Lower(a) == Lower(b) {
      forall i | 0 <= i < |a|
        ensures CaseVariants(a[i], b[i])
      {
        assert LowerChar(a[i]) == Lower(a)[i] == Lower(b)[i] == LowerChar(b[i]);
      }
    }
    if EqualIgnoringCase(a, b) {
      forall i | 0 <= i < |a|
        ensures Lower(a)[i] == Lower(b)[i]
      {
        assert CaseVariants(a[i], b[i]);
      }
    }
  }
}
