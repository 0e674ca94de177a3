/** The few Python `str` builtins the question-answering code relies on:
    `str.isspace`, `sub in s`, `s.find(sub, start)`, `s.strip()` and `s.strip(chars)`. */
module PyStr {

  /** Python's `str.isspace()`: the characters that `str.split()` and `str.strip()`
      with no argument treat as whitespace (ASCII controls 0x09-0x0D and 0x1C-0x1F,
      the space, NEL, NO-BREAK SPACE, the Unicode space separators, and the line
      and paragraph separators U+2028 and U+2029). */
  predicate IsSpace(c: char) {
    var n := c as int;
    || (0x09 <= n <= 0x0D)
    || (0x1C <= n <= 0x20)
    || n == 0x85
    || n == 0xA0
    || n == 0x1680
    || (0x2000 <= n <= 0x200A)
    || n == 0x2028
    || n == 0x2029
    || n == 0x202F
    || n == 0x205F
    || n == 0x3000
  }

  /** `sub` occurs in `s` starting at index `i`. */
  predicate OccursAt(s: string, sub: string, i: nat) {
    i + |sub| <= |s| && s[i..i + |sub|] == sub
  }

  /** A one-character needle occurs exactly where that character sits. */
  lemma OccursAtChar(s: string, c: char, i: nat)
    ensures OccursAt(s, [c], i) <==> i < |s| && s[i] == c
  {
    if i < |s| {
      assert s[i..i + 1] == [s[i]];
    }
  }

  /** Python's `s.find(sub, start)` for a non-negative `start`: the lowest index at or
      after `start` where `sub` occurs, or -1 when there is none (also when `start`
      lies beyond the end of `s`). */
  function Find(s: string, sub: string, start: nat): (r: int)
    ensures r == -1 || (start <= r && OccursAt(s, sub, r))
    ensures r == -1 ==> forall j: nat :: start <= j ==> !OccursAt(s, sub, j)
    ensures r != -1 ==> forall j: nat :: start <= j < r ==> !OccursAt(s, sub, j)
    decreases |s| - start
  {
    if start + |sub| > |s| then -1
    else if s[start..start + |sub|] == sub then start
    else Find(s, sub, start + 1)
  }

  /** Python's `sub in s`. */
  predicate In(sub: string, s: string)
  {
    Find(s, sub, 0) != -1
  }

  /** `sub in s` holds exactly when `sub` occurs somewhere in `s`; in particular the
      empty string is in every string. */
  lemma InIffOccurs(sub: string, s: string)
    ensures In(sub, s) <==> exists i: nat :: OccursAt(s, sub, i)
    ensures sub == [] ==> In(sub, s)
  {
    if sub == [] {
      assert OccursAt(s, sub, 0);
    }
  }

  /** Index `k` of `s` holds a character that `drop` removes. */
  predicate Droppable(s: string, drop: char -> bool, k: int) {
    0 <= k < |s| && drop(s[k])
  }

  /** The first index at or after `i` whose character cannot be dropped (or `|s|`):
      the forward scan `s.strip(...)` starts with. */
  function LeadEnd(s: string, drop: char -> bool, i: nat): (j: nat)
    requires i <= |s|
    ensures i <= j <= |s|
    ensures forall k :: i <= k < j ==> Droppable(s, drop, k)
    ensures j == |s| || !drop(s[j])
    decreases |s| - i
  {
    if i < |s| && drop(s[i]) then LeadEnd(s, drop, i + 1) else i
  }

  /** The backward scan from `j` down to `lo`: the smallest index such that every
      character from it up to `j` can be dropped. */
  function TrailStart(s: string, drop: char -> bool, lo: nat, j: nat): (k: nat)
    requires lo <= j <= |s|
    ensures lo <= k <= j
    ensures forall m :: k <= m < j ==> Droppable(s, drop, m)
    ensures k == lo || !drop(s[k - 1])
    decreases j
  {
    if j > lo && drop(s[j - 1]) then TrailStart(s, drop, lo, j - 1) else j
  }

  /** `r` is the slice of `s` starting at `i`, and every character of `s` outside
      that slice satisfies `drop`. */
  ghost predicate CutAt(s: string, drop: char -> bool, i: nat, r: string) {
    && i + |r| <= |s|
    && r == s[i..i + |r|]
    && (forall k :: 0 <= k < i ==> Droppable(s, drop, k))
    && (forall k :: i + |r| <= k < |s| ==> Droppable(s, drop, k))
  }

  /** `s.strip(...)`: the part of `s` left once every leading and trailing character
      satisfying `drop` is removed. The result is a contiguous slice of `s`, neither of
      its ends can be dropped, and everything cut away could be. */
  function StripBy(s: string, drop: char -> bool): (r: string)
    ensures exists i: nat :: CutAt(s, drop, i, r)
    ensures r == [] || (!drop(r[0]) && !drop(r[|r| - 1]))
  {
    var i := LeadEnd(s, drop, 0);
    var j := TrailStart(s, drop, i, |s|);
    assert CutAt(s, drop, i, s[i..j]);
    s[i..j]
  }

  /** Every character of the stripped string comes from the original. */
  lemma StripByChars(s: string, drop: char -> bool)
    ensures forall c :: c in StripBy(s, drop) ==> c in s
  {
    var r := StripBy(s, drop);
    var i: nat :| CutAt(s, drop, i, r);
    forall c | c in r
      ensures c in s
    {
      var k :| 0 <= k < |r| && r[k] == c;
      assert s[i + k] == c;
    }
  }

  /** A string with a character `drop` keeps does not strip to nothing. */
  lemma StripByNonEmpty(s: string, drop: char -> bool, k: nat)
    requires k < |s| && !drop(s[k])
    ensures StripBy(s, drop) != []
  {
    var r := StripBy(s, drop);
    var i: nat :| CutAt(s, drop, i, r);
    assert !Droppable(s, drop, k);
  }

  /** Python's `s.strip()` with no argument: trims whitespace at both ends. */
  function Strip(s: string): string {
    StripBy(s, IsSpace)
  }

  /** Python's `s.strip('"')`: trims double quotes at both ends. */
  function StripQuotes(s: string): string {
    StripBy(s, c => c == '"')
  }

  /** `s.strip(...)` is the only cut of `s` whose ends cannot be dropped: any slice
      with droppable characters all around it and undroppable ends is the strip. */
  lemma StripByUnique(s: string, drop: char -> bool, i: nat, r: string)
    requires CutAt(s, drop, i, r)
    requires r == [] || (!drop(r[0]) && !drop(r[|r| - 1]))
    ensures StripBy(s, drop) == r
  {
    var r' := StripBy(s, drop);
    var i': nat :| CutAt(s, drop, i', r');
    if r == [] {
      assert r' != [] ==> r'[0] == s[i'] && Droppable(s, drop, i');
    } else {
      assert r[0] == s[i] && r[|r| - 1] == s[i + |r| - 1];
      assert !Droppable(s, drop, i) && !Droppable(s, drop, i + |r| - 1);
      assert r' == [] ==> Droppable(s, drop, i);
      assert r'[0] == s[i'] && r'[|r'| - 1] == s[i' + |r'| - 1];
      assert !Droppable(s, drop, i') && !Droppable(s, drop, i' + |r'| - 1);
      assert i == i';
      assert |r| == |r'|;
    }
  }

  /** Stripping a string that already has no strippable end leaves it unchanged. */
  lemma {:induction false} StripByNoop(s: string, drop: char -> bool)
    requires s == [] || (!drop(s[0]) && !drop(s[|s| - 1]))
    ensures StripBy(s, drop) == s
  {
    assert CutAt(s, drop, 0, s);
    StripByUnique(s, drop, 0, s);
  }

  /** Stripping is idempotent. */
  lemma StripByIdempotent(s: string, drop: char -> bool)
    ensures StripBy(StripBy(s, drop), drop) == StripBy(s, drop)
  {
    StripByNoop(StripBy(s, drop), drop);
  }
}
