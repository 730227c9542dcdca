/** The JavaScript string operations the action's pure code is built from,
    with ECMAScript's edge cases written out: `indexOf` answering -1,
    `slice` counting negative positions back from the end, `split` on a
    string separator, `Array.prototype.join`, a global replace of a literal
    pattern, and `trim`. A JavaScript string is modelled as a `string`
    (one element per character). */
module JsStrings {

  // ------------------------------------------------------------ indexOf

  /** `s.indexOf(c)` for a one-character search string: the index of the
      first `c` in `s`, or -1 when `s` has none. */
  function IndexOf(s: string, c: char): (r: int)
    ensures -1 <= r < |s|
    ensures r == -1 <==> c !in s
    ensures r >= 0 ==> s[r] == c && c !in s[..r]
  {
    if |s| == 0 then -1
    else if s[0] == c then 0
    else
      var k := IndexOf(s[1..], c);
      if k < 0 then -1
      else
        assert s[..k + 1] == [s[0]] + s[1..][..k];
        k + 1
  }

  // -------------------------------------------------------------- slice

  /** The position `slice` takes from an argument `k` on a string of
      length `len`: a negative `k` counts back from the end, and the result
      is clamped to `0..len`. */
  function RelativeIndex(len: nat, k: int): (r: nat)
    ensures r <= len
    ensures 0 <= k <= len ==> r == k
    ensures k < 0 && len + k >= 0 ==> r as int == len + k
  {
    if k < 0 then (if len + k < 0 then 0 else len + k)
    else if k > len then len
    else k
  }

  /** `s.slice(start, end)`: the characters from `start` up to `end`, both
      read by `RelativeIndex`; empty when `end` falls at or before `start`. */
  function Slice(s: string, start: int, end: int): (r: string)
    ensures 0 <= start <= end <= |s| ==> r == s[start..end]
    ensures 0 <= start && 0 <= |s| + end && start <= |s| + end && end < 0 ==> r == s[start..|s| + end]
    ensures |r| <= |s|
  {
    var from := RelativeIndex(|s|, start);
    var to := RelativeIndex(|s|, end);
    if from < to then s[from..to] else []
  }

  /** `s.slice(start)`, whose missing end is the length of `s`. */
  function SliceFrom(s: string, start: int): (r: string)
    ensures 0 <= start <= |s| ==> r == s[start..]
    ensures start < -|s| ==> r == s
  {
    Slice(s, start, |s|)
  }

  // --------------------------------------------------- occurrences, join

  /** `s` has an occurrence of `pat` at some position. */
  predicate Contains(s: string, pat: string)
    decreases |s|
  {
    |s| >= |pat| && (s[..|pat|] == pat || (|s| > 0 && Contains(s[1..], pat)))
  }

  /** `parts.join(sep)`: the parts in order with `sep` between neighbours;
      no parts give the empty string. */
  function Join(parts: seq<string>, sep: string): (r: string)
    ensures |parts| == 0 ==> r == []
    ensures |parts| > 0 ==> parts[0] <= r
    ensures |parts| > 1 ==> parts[0] + sep <= r
  {
    if |parts| == 0 then []
    else if |parts| == 1 then parts[0]
    else parts[0] + sep + Join(parts[1..], sep)
  }

  /** Joining one more part adds it after a separator. */
  lemma {:induction false} JoinAppend(parts: seq<string>, last: string, sep: string)
    requires |parts| >= 1
    ensures Join(parts + [last], sep) == Join(parts, sep) + sep + last
  {
    var all := parts + [last];
    assert all[0] == parts[0];
    if |parts| > 1 {
      var rest := parts[1..];
      assert all[1..] == rest + [last];
      JoinAppend(rest, last, sep);
      assert Join(all, sep) == parts[0] + sep + (Join(rest, sep) + sep + last);
      assert Join(parts, sep) == parts[0] + sep + Join(rest, sep);
    } else {
      assert all[1..] == [last];
      assert Join(all, sep) == parts[0] + sep + last;
    }
  }

  // -------------------------------------------------------------- split

  /** `s.split(sep)` for a non-empty separator: the text between the
      occurrences of `sep` found scanning left to right, each occurrence
      ending where the next search starts. The empty string gives one empty
      part. Joining the parts with `sep` gives `s` back, and no part holds
      `sep`. */
  function Split(s: string, sep: string): (parts: seq<string>)
    requires |sep| > 0
    ensures |parts| >= 1
    ensures Join(parts, sep) == s
    ensures forall i :: 0 <= i < |parts| ==> !Contains(parts[i], sep)
    decreases |s|
  {
    if |s| < |sep| then [s]
    else if s[..|sep|] == sep then
      var rest := Split(s[|sep|..], sep);
      assert s == sep + s[|sep|..];
      [[]] + rest
    else
      var rest := Split(s[1..], sep);
      var head := [s[0]] + rest[0];
      assert s == [s[0]] + s[1..];
      assert head[1..] == rest[0];
      assert |head| >= |sep| ==> head[..|sep|] == s[..|sep|];
      assert !Contains(head, sep);
      JoinNewHead(s[0], rest, sep);
      [head] + rest[1..]
  }

  /** Putting a character in front of the first part puts it in front of
      the joined text. */
  lemma {:induction false} JoinNewHead(c: char, parts: seq<string>, sep: string)
    requires |parts| >= 1
    ensures Join([[c] + parts[0]] + parts[1..], sep) == [c] + Join(parts, sep)
  {
    var ps := [[c] + parts[0]] + parts[1..];
    if |parts| > 1 {
      assert ps[1..] == parts[1..];
    }
  }

  /** A text without `sep` splits into itself alone. */
  lemma {:induction false} SplitAbsent(s: string, sep: string)
    requires |sep| > 0 && !Contains(s, sep)
    ensures Split(s, sep) == [s]
  {
    if |s| >= |sep| {
      assert s[..|sep|] != sep;
      SplitAbsent(s[1..], sep);
      assert s == [s[0]] + s[1..];
    }
  }

  /** A one-character separator `c` occurs in `s` exactly where `c` does. */
  lemma {:induction false} ContainsChar(s: string, c: char)
    ensures Contains(s, [c]) <==> c in s
  {
    if |s| > 0 {
      ContainsChar(s[1..], c);
      assert s == [s[0]] + s[1..];
    }
  }

  /** A text that starts with the separator splits into an empty part and
      the parts of the rest. */
  lemma SplitLeadingSeparator(c: char, t: string)
    ensures Split([c] + t, [c]) == [[]] + Split(t, [c])
  {
    var s := [c] + t;
    assert s[..1] == [c];
    assert s[1..] == t;
  }

  /** A text made only of separators splits into empty parts, one more
      than it has separators. */
  lemma {:induction false} SplitSeparatorsOnly(s: string, c: char)
    requires forall i :: 0 <= i < |s| ==> s[i] == c
    ensures |Split(s, [c])| == |s| + 1
    ensures forall i :: 0 <= i < |Split(s, [c])| ==> Split(s, [c])[i] == []
  {
    if |s| > 0 {
      assert s == [c] + s[1..];
      SplitLeadingSeparator(c, s[1..]);
      SplitSeparatorsOnly(s[1..], c);
    }
  }

  /** A text that starts with another character has it at the head of its
      first part. */
  lemma SplitLeadingOther(x: char, t: string, c: char)
    requires x != c
    ensures Split([x] + t, [c]) == [[x] + Split(t, [c])[0]] + Split(t, [c])[1..]
  {
    var s := [x] + t;
    assert s[..1] != [c];
    assert s[1..] == t;
  }

  /** Splitting on a one-character separator cuts at every separator: the
      parts of `a + [c] + b` are those of `a` followed by those of `b`. */
  lemma {:induction false} SplitAtSeparator(a: string, c: char, b: string)
    ensures Split(a + [c] + b, [c]) == Split(a, [c]) + Split(b, [c])
    decreases |a|
  {
    if |a| == 0 {
      SplitAtFirst(a, c, b);
    } else {
      SplitAtSeparator(a[1..], c, b);
      if a[0] == c {
        SplitAtSeparatorHead(a, c, b);
      } else {
        SplitAtOtherHead(a, c, b);
      }
    }
  }

  /** `SplitAtSeparator` when `a` is empty. */
  lemma SplitAtFirst(a: string, c: char, b: string)
    requires a == []
    ensures Split(a + [c] + b, [c]) == Split(a, [c]) + Split(b, [c])
  {
    assert a + [c] + b == [c] + b;
    SplitLeadingSeparator(c, b);
  }

  /** `SplitAtSeparator` when `a` starts with the separator. */
  lemma SplitAtSeparatorHead(a: string, c: char, b: string)
    requires |a| > 0 && a[0] == c
    requires Split(a[1..] + [c] + b, [c]) == Split(a[1..], [c]) + Split(b, [c])
    ensures Split(a + [c] + b, [c]) == Split(a, [c]) + Split(b, [c])
  {
    var t := a[1..] + [c] + b;
    SeparatorOff(a, c, b);
    SplitLeadingSeparator(c, t);
    SplitLeadingSeparator(c, a[1..]);
    AppendAssoc([[]], Split(a[1..], [c]), Split(b, [c]));
  }

  /** Concatenation is associative. */
  lemma AppendAssoc<T>(x: seq<T>, y: seq<T>, z: seq<T>)
    ensures x + (y + z) == (x + y) + z
  {
  }

  /** Sequence bookkeeping: `a` is the separator and the rest. */
  lemma SeparatorOff(a: string, c: char, b: string)
    requires |a| > 0 && a[0] == c
    ensures a == [c] + a[1..] && a + [c] + b == [c] + (a[1..] + [c] + b)
  {
  }

  /** `SplitAtSeparator` when `a` starts with another character. */
  lemma SplitAtOtherHead(a: string, c: char, b: string)
    requires |a| > 0 && a[0] != c
    requires Split(a[1..] + [c] + b, [c]) == Split(a[1..], [c]) + Split(b, [c])
    ensures Split(a + [c] + b, [c]) == Split(a, [c]) + Split(b, [c])
  {
    HeadOff(a, c, b);
    SplitLeadingOther(a[0], a[1..] + [c] + b, c);
    SplitLeadingOther(a[0], a[1..], c);
    HeadJoined([a[0]], Split(a[1..], [c]), Split(b, [c]));
  }

  /** Sequence bookkeeping: `a` is its first character and the rest. */
  lemma HeadOff(a: string, c: char, b: string)
    requires |a| > 0
    ensures a == [a[0]] + a[1..] && a + [c] + b == [a[0]] + (a[1..] + [c] + b)
  {
  }

  /** Changing the first part of a list of parts followed by more parts. */
  lemma HeadJoined(x: string, ra: seq<string>, rb: seq<string>)
    requires |ra| >= 1
    ensures [x + (ra + rb)[0]] + (ra + rb)[1..] == ([x + ra[0]] + ra[1..]) + rb
  {
    assert (ra + rb)[0] == ra[0];
    assert (ra + rb)[1..] == ra[1..] + rb;
  }

  /** `split` undoes `join` on a one-character separator that no part
      holds. */
  lemma {:induction false} SplitJoin(parts: seq<string>, c: char)
    requires |parts| >= 1
    requires forall i :: 0 <= i < |parts| ==> c !in parts[i]
    ensures Split(Join(parts, [c]), [c]) == parts
  {
    ContainsChar(parts[0], c);
    SplitAbsent(parts[0], [c]);
    if |parts| > 1 {
      SplitJoin(parts[1..], c);
      SplitAtSeparator(parts[0], c, Join(parts[1..], [c]));
      assert parts == [parts[0]] + parts[1..];
    }
  }

  // ------------------------------------------------------ count, replace

  /** The number of occurrences of `pat` that a left-to-right scan finds
      when each one found is skipped over: one fewer than the parts of
      `Split(s, pat)`, and zero exactly when `s` has no occurrence. */
  function Count(s: string, pat: string): (n: nat)
    requires |pat| > 0
    ensures n == 0 <==> !Contains(s, pat)
    decreases |s|
  {
    if |s| < |pat| then 0
    else if s[..|pat|] == pat then 1 + Count(s[|pat|..], pat)
    else Count(s[1..], pat)
  }

  /** `s.replace(/pat/g, rep)` for a pattern that is literal text and a
      replacement with no `$` pattern: every occurrence of `pat` a left to
      right scan finds is replaced by `rep`. This is `s.split(pat)
      .join(rep)`: the text between occurrences is kept, in order; and a
      text without `pat` is returned unchanged. */
  function ReplaceAll(s: string, pat: string, rep: string): (r: string)
    requires |pat| > 0
    ensures !Contains(s, pat) ==> r == s
    decreases |s|
  {
    if |s| < |pat| then s
    else if s[..|pat|] == pat then rep + ReplaceAll(s[|pat|..], pat, rep)
    else [s[0]] + ReplaceAll(s[1..], pat, rep)
  }

  /** Replacing is splitting at the occurrences and joining with the
      replacement, `s.split(pat).join(rep)`: the text between occurrences is
      kept, in order, and there are as many replacements as the count of
      occurrences. */
  lemma {:induction false} ReplaceAllIsSplitJoin(s: string, pat: string, rep: string)
    requires |pat| > 0
    ensures ReplaceAll(s, pat, rep) == Join(Split(s, pat), rep)
    ensures Count(s, pat) == |Split(s, pat)| - 1
    decreases |s|
  {
    if |s| < |pat| {
    } else if s[..|pat|] == pat {
      ReplaceAllIsSplitJoin(s[|pat|..], pat, rep);
      assert Split(s, pat) == [[]] + Split(s[|pat|..], pat);
    } else {
      ReplaceAllIsSplitJoin(s[1..], pat, rep);
      JoinNewHead(s[0], Split(s[1..], pat), rep);
    }
  }

  /** Text that cannot start an occurrence is passed over: when `a` does
      not hold the first character of `pat`, no occurrence starts in `a`,
      and replacing in `a + t` keeps `a` and replaces in `t`. */
  lemma {:induction false} FreePrefix(a: string, t: string, pat: string, rep: string)
    requires |pat| > 0 && pat[0] !in a
    ensures ReplaceAll(a + t, pat, rep) == a + ReplaceAll(t, pat, rep)
    decreases |a|
  {
    if |a| > 0 {
      var s := a + t;
      assert s[0] == a[0] != pat[0];
      assert |s| >= |pat| ==> s[..|pat|] != pat;
      assert s[1..] == a[1..] + t;
      FreePrefix(a[1..], t, pat, rep);
    } else {
      assert a + t == t;
    }
  }

  /** Counting in `a + t` is counting in `t` when `a` does not hold the
      first character of `pat`. */
  lemma {:induction false} FreePrefixCount(a: string, t: string, pat: string)
    requires |pat| > 0 && pat[0] !in a
    ensures Count(a + t, pat) == Count(t, pat)
    decreases |a|
  {
    if |a| > 0 {
      var s := a + t;
      assert s[0] == a[0] != pat[0];
      assert |s| >= |pat| ==> s[..|pat|] != pat;
      assert s[1..] == a[1..] + t;
      FreePrefixCount(a[1..], t, pat);
    } else {
      assert a + t == t;
    }
  }

  /** `a + t` holds `pat` exactly when `t` does, when `a` does not hold the
      first character of `pat`. */
  lemma {:induction false} FreePrefixContains(a: string, t: string, pat: string)
    requires |pat| > 0 && pat[0] !in a
    ensures Contains(a + t, pat) == Contains(t, pat)
    decreases |a|
  {
    if |a| > 0 {
      var s := a + t;
      assert s[0] == a[0] != pat[0];
      assert |s| >= |pat| ==> s[..|pat|] != pat;
      assert s[1..] == a[1..] + t;
      FreePrefixContains(a[1..], t, pat);
    } else {
      assert a + t == t;
    }
  }

  /** A text that does not hold the first character of `pat` holds no
      occurrence of it. */
  lemma {:induction false} NotContainsFree(a: string, pat: string)
    requires |pat| > 0 && pat[0] !in a
    ensures !Contains(a, pat)
    decreases |a|
  {
    if |a| >= |pat| {
      assert a[..|pat|][0] == a[0] != pat[0];
      NotContainsFree(a[1..], pat);
    }
  }

  /** An occurrence of `pat` that would start in `a` but end past it would
      hold `c`, so there is none when `pat` does not hold `c`. */
  lemma NoMatchAcross(a: string, c: char, b: string, pat: string)
    requires c !in pat && |a| < |pat| <= |a + [c] + b|
    ensures (a + [c] + b)[..|pat|] != pat
  {
    var s := a + [c] + b;
    assert s[..|pat|][|a|] == s[|a|] == c;
  }

  /** An occurrence of `pat` never spans a character `pat` does not hold:
      replacing on `a + [c] + b` is done on `a` and `b` apart. */
  lemma {:induction false} AroundChar(a: string, c: char, b: string, pat: string, rep: string)
    requires |pat| > 0 && c !in pat
    ensures ReplaceAll(a + [c] + b, pat, rep) == ReplaceAll(a, pat, rep) + [c] + ReplaceAll(b, pat, rep)
    decreases |a|
  {
    if |a| == 0 {
      AroundCharFirst(c, b, pat, rep);
    } else if StartsWith(a, pat) {
      AroundChar(a[|pat|..], c, b, pat, rep);
      AroundCharMatch(a, c, b, pat, rep);
    } else {
      AroundChar(a[1..], c, b, pat, rep);
      AroundCharSkip(a, c, b, pat, rep);
    }
  }

  /** `AroundChar` when `a` is empty. */
  lemma AroundCharFirst(c: char, b: string, pat: string, rep: string)
    requires |pat| > 0 && c !in pat
    ensures ReplaceAll([] + [c] + b, pat, rep) == ReplaceAll([], pat, rep) + [c] + ReplaceAll(b, pat, rep)
  {
    var s := [] + [c] + b;
    assert s == [c] + b;
    if |s| >= |pat| {
      NoMatchAcross([], c, b, pat);
      assert s[1..] == b;
    } else {
      assert ReplaceAll(b, pat, rep) == b;
    }
  }

  /** `AroundChar` when `a` starts with `pat`. */
  lemma AroundCharMatch(a: string, c: char, b: string, pat: string, rep: string)
    requires |pat| > 0 && StartsWith(a, pat)
    requires ReplaceAll(a[|pat|..] + [c] + b, pat, rep)
          == ReplaceAll(a[|pat|..], pat, rep) + [c] + ReplaceAll(b, pat, rep)
    ensures ReplaceAll(a + [c] + b, pat, rep) == ReplaceAll(a, pat, rep) + [c] + ReplaceAll(b, pat, rep)
  {
    MatchAcross(a, c, b, pat);
    ReplaceMatches(a + [c] + b, pat, rep);
    ReplaceMatches(a, pat, rep);
  }

  /** `a + [c] + b` starts with `pat` when `a` does. */
  lemma MatchAcross(a: string, c: char, b: string, pat: string)
    requires StartsWith(a, pat)
    ensures StartsWith(a + [c] + b, pat) && (a + [c] + b)[|pat|..] == a[|pat|..] + [c] + b
  {
    assert (a + [c] + b)[..|pat|] == a[..|pat|];
  }

  /** `AroundChar` when `a` does not start with `pat`. */
  lemma AroundCharSkip(a: string, c: char, b: string, pat: string, rep: string)
    requires |pat| > 0 && c !in pat && |a| > 0 && !StartsWith(a, pat)
    requires ReplaceAll(a[1..] + [c] + b, pat, rep)
          == ReplaceAll(a[1..], pat, rep) + [c] + ReplaceAll(b, pat, rep)
    ensures ReplaceAll(a + [c] + b, pat, rep) == ReplaceAll(a, pat, rep) + [c] + ReplaceAll(b, pat, rep)
  {
    SkipAcross(a, c, b, pat);
    ReplaceSkips(a + [c] + b, pat, rep);
    ReplaceSkips(a, pat, rep);
    Regroup(a, c, b);
  }

  /** Sequence bookkeeping for `AroundCharSkip`. */
  lemma Regroup(a: string, c: char, b: string)
    requires |a| > 0
    ensures (a + [c] + b)[0] == a[0] && (a + [c] + b)[1..] == a[1..] + [c] + b
  {
  }

  /** `s` starts with `pat`. */
  predicate StartsWith(s: string, pat: string)
  {
    |s| >= |pat| && s[..|pat|] == pat
  }

  /** A text that does not start with `pat` keeps its first character. */
  lemma ReplaceSkips(s: string, pat: string, rep: string)
    requires |pat| > 0 && |s| > 0 && !StartsWith(s, pat)
    ensures ReplaceAll(s, pat, rep) == [s[0]] + ReplaceAll(s[1..], pat, rep)
  {
    if |s| < |pat| {
      assert ReplaceAll(s[1..], pat, rep) == s[1..];
      assert s == [s[0]] + s[1..];
    }
  }

  /** A text that starts with `pat` has it replaced first. */
  lemma ReplaceMatches(s: string, pat: string, rep: string)
    requires |pat| > 0 && StartsWith(s, pat)
    ensures ReplaceAll(s, pat, rep) == rep + ReplaceAll(s[|pat|..], pat, rep)
  {
  }

  /** `a + [c] + b` starts with `pat` only if `a` does. */
  lemma SkipAcross(a: string, c: char, b: string, pat: string)
    requires |pat| > 0 && c !in pat && !StartsWith(a, pat)
    ensures !StartsWith(a + [c] + b, pat)
  {
    var s := a + [c] + b;
    if |s| >= |pat| {
      if |a| < |pat| {
        NoMatchAcross(a, c, b, pat);
      } else {
        assert s[..|pat|] == a[..|pat|];
      }
    }
  }

  /** Counting on `a + [c] + b` is done on `a` and `b` apart when `pat`
      does not hold `c`. */
  lemma {:induction false} CountAroundChar(a: string, c: char, b: string, pat: string)
    requires |pat| > 0 && c !in pat
    ensures Count(a + [c] + b, pat) == Count(a, pat) + Count(b, pat)
    decreases |a|
  {
    var s := a + [c] + b;
    if |s| < |pat| {
      assert Count(b, pat) == 0;
    } else if |a| == 0 {
      NoMatchAcross(a, c, b, pat);
      assert s[1..] == b;
    } else if |a| >= |pat| && a[..|pat|] == pat {
      assert s[..|pat|] == pat;
      assert s[|pat|..] == a[|pat|..] + [c] + b;
      CountAroundChar(a[|pat|..], c, b, pat);
    } else {
      if |a| < |pat| {
        NoMatchAcross(a, c, b, pat);
      } else {
        assert s[..|pat|] == a[..|pat|];
      }
      assert s[1..] == a[1..] + [c] + b;
      CountAroundChar(a[1..], c, b, pat);
    }
  }

  /** The first characters of the replaced text are those of the original
      for as long as no replacement has started, which they witness by not
      holding the first character of `rep`. */
  lemma {:induction false} KeptPrefix(s: string, pat: string, rep: string, m: nat)
    requires |pat| > 0 && |rep| > 0
    requires m <= |ReplaceAll(s, pat, rep)| && rep[0] !in ReplaceAll(s, pat, rep)[..m]
    ensures m <= |s| && ReplaceAll(s, pat, rep)[..m] == s[..m]
    decreases |s|
  {
    var r := ReplaceAll(s, pat, rep);
    if |s| < |pat| {
    } else if s[..|pat|] == pat {
      assert r == rep + ReplaceAll(s[|pat|..], pat, rep);
      assert r[0] == rep[0];
      assert forall k :: 0 < k <= |r| ==> r[0] in r[..k];
    } else if m > 0 {
      var rest := ReplaceAll(s[1..], pat, rep);
      assert r == [s[0]] + rest;
      assert rest[..m - 1] == r[..m][1..];
      KeptPrefix(s[1..], pat, rep, m - 1);
      assert r[..m] == [s[0]] + rest[..m - 1];
      assert s[..m] == [s[0]] + s[1..][..m - 1];
    }
  }

  /** Replacing `pat` leaves no occurrence of a pattern `q` that the input
      lacks or that is `pat` itself, provided a replacement can neither
      start nor begin inside an occurrence of `q`: `rep` does not hold the
      first character of `q`, nor `q` the first character of `rep`. */
  lemma {:induction false} LeavesNoOccurrence(s: string, pat: string, rep: string, q: string)
    requires |pat| > 0 && |rep| > 0 && |q| > 0
    requires q[0] !in rep && rep[0] !in q
    requires q == pat || !Contains(s, q)
    ensures !Contains(ReplaceAll(s, pat, rep), q)
    decreases |s|
  {
    var r := ReplaceAll(s, pat, rep);
    if |s| < |pat| {
      assert r == s;
    } else if s[..|pat|] == pat {
      var rest := ReplaceAll(s[|pat|..], pat, rep);
      if q != pat {
        NotContainsSuffix(s, q, |pat|);
      }
      LeavesNoOccurrence(s[|pat|..], pat, rep, q);
      FreePrefixContains(rep, rest, q);
    } else {
      var rest := ReplaceAll(s[1..], pat, rep);
      if q != pat {
        NotContainsSuffix(s, q, 1);
      }
      LeavesNoOccurrence(s[1..], pat, rep, q);
      assert r == [s[0]] + rest && r[1..] == rest;
      if |r| >= |q| {
        var m := |q| - 1;
        assert r[..|q|] == [s[0]] + rest[..m];
        if rep[0] in rest[..m] {
          assert rep[0] in r[..|q|];
        } else {
          KeptPrefix(s[1..], pat, rep, m);
          assert s[..|q|] == [s[0]] + s[1..][..m];
          assert r[..|q|] == s[..|q|];
        }
        assert r[..|q|] != q;
      }
    }
  }

  /** A text without `q` has no `q` after its first `k` characters either. */
  lemma {:induction false} NotContainsSuffix(s: string, q: string, k: nat)
    requires k <= |s| && !Contains(s, q)
    ensures !Contains(s[k..], q)
    decreases k
  {
    if k > 0 {
      assert |s| > 0;
      if |s| >= |q| {
        assert !Contains(s[1..], q);
      } else {
        assert !Contains(s[1..], q);
      }
      NotContainsSuffix(s[1..], q, k - 1);
      assert s[1..][k - 1..] == s[k..];
    }
  }

  // --------------------------------------------------------------- trim

  /** The characters `trim` removes: ECMAScript's WhiteSpace (tab,
      vertical tab, form feed, space, no-break space, the byte order mark
      and the space separators of Unicode category Zs) and its
      LineTerminators (line feed, carriage return, line and paragraph
      separator). */
  predicate IsWhiteSpace(ch: char)
  {
    ch == '\t' || ch == '\n' || ch == '\U{000B}' || ch == '\U{000C}' || ch == '\r'
    || ch == ' ' || ch == '\U{00A0}' || ch == '\U{1680}'
    || ('\U{2000}' <= ch <= '\U{200A}')
    || ch == '\U{2028}' || ch == '\U{2029}' || ch == '\U{202F}' || ch == '\U{205F}'
    || ch == '\U{3000}' || ch == '\U{FEFF}'
  }

  predicate AllWhiteSpace(s: string)
  {
    forall k :: 0 <= k < |s| ==> IsWhiteSpace(s[k])
  }

  /** How many characters of white space `s` starts with. */
  function Leading(s: string): (n: nat)
    ensures n <= |s| && AllWhiteSpace(s[..n])
    ensures n < |s| ==> !IsWhiteSpace(s[n])
    decreases |s|
  {
    if |s| > 0 && IsWhiteSpace(s[0]) then
      var n := Leading(s[1..]);
      assert s[..n + 1] == [s[0]] + s[1..][..n];
      n + 1
    else 0
  }

  /** How many characters of white space `s` ends with. */
  function Trailing(s: string): (n: nat)
    ensures n <= |s| && AllWhiteSpace(s[|s| - n..])
    ensures n < |s| ==> !IsWhiteSpace(s[|s| - n - 1])
    decreases |s|
  {
    if |s| > 0 && IsWhiteSpace(s[|s| - 1]) then
      var n := Trailing(s[..|s| - 1]);
      TrailingStep(s, n);
      n + 1
    else 0
  }

  /** One more character of white space at the end. */
  lemma TrailingStep(s: string, n: nat)
    requires n < |s| && IsWhiteSpace(s[|s| - 1])
    requires AllWhiteSpace(s[..|s| - 1][|s| - 1 - n..])
    ensures AllWhiteSpace(s[|s| - n - 1..])
  {
    var w := s[..|s| - 1][|s| - 1 - n..];
    assert s[|s| - n - 1..] == w + [s[|s| - 1]];
  }

  /** `s.trim()`: `s` with white space removed from both ends. What is left
      neither starts nor ends with white space; `TrimSurrounded` shows that
      only white space was removed. */
  function Trim(s: string): (r: string)
    ensures |r| > 0 ==> !IsWhiteSpace(r[0])
    ensures |r| > 0 ==> !IsWhiteSpace(r[|r| - 1])
  {
    var i := Leading(s);
    var t := s[i..];
    var j := Trailing(t);
    TrimEdges(s, i, t, j, t[..|t| - j]);
    t[..|t| - j]
  }

  /** A text is what `trim` leaves of it with only white space around
      it. */
  lemma TrimSurrounded(s: string)
    ensures exists a, b :: s == a + Trim(s) + b && AllWhiteSpace(a) && AllWhiteSpace(b)
  {
    var i := Leading(s);
    var t := s[i..];
    var j := Trailing(t);
    TrimAround(s, i, t, j, Trim(s));
  }

  /** What is left after removing white space at both ends neither starts
      nor ends with white space. */
  lemma TrimEdges(s: string, i: nat, t: string, j: nat, r: string)
    requires i <= |s| && t == s[i..] && j <= |t| && r == t[..|t| - j]
    requires i < |s| ==> !IsWhiteSpace(s[i])
    requires j < |t| ==> !IsWhiteSpace(t[|t| - j - 1])
    ensures |r| > 0 ==> !IsWhiteSpace(r[0])
    ensures |r| > 0 ==> !IsWhiteSpace(r[|r| - 1])
  {
    if |r| > 0 {
      assert r[0] == t[0] == s[i];
      assert r[|r| - 1] == t[|t| - j - 1];
    }
  }

  /** What is left after removing white space at both ends has only white
      space around it. */
  lemma TrimAround(s: string, i: nat, t: string, j: nat, r: string)
    requires i <= |s| && t == s[i..] && j <= |t| && r == t[..|t| - j]
    requires AllWhiteSpace(s[..i]) && AllWhiteSpace(t[|t| - j..])
    ensures exists a, b :: s == a + r + b && AllWhiteSpace(a) && AllWhiteSpace(b)
  {
    var a, b := s[..i], t[|t| - j..];
    assert s == a + t;
    assert t == r + b;
    Between(s, a, t, r, b);
  }

  /** A text between white space. */
  lemma Between(s: string, a: string, t: string, r: string, b: string)
    requires s == a + t && t == r + b && AllWhiteSpace(a) && AllWhiteSpace(b)
    ensures exists a, b :: s == a + r + b && AllWhiteSpace(a) && AllWhiteSpace(b)
  {
    assert s == a + r + b;
  }

  /** White space in front of a text that does not start with white space
      is exactly what `trim` removes at the start. */
  lemma {:induction false} LeadingPadded(a: string, t: string)
    requires AllWhiteSpace(a)
    requires |t| > 0 ==> !IsWhiteSpace(t[0])
    ensures Leading(a + t) == |a|
    decreases |a|
  {
    if |a| > 0 {
      assert (a + t)[0] == a[0];
      assert (a + t)[1..] == a[1..] + t;
      LeadingPadded(a[1..], t);
    } else {
      assert a + t == t;
    }
  }

  /** White space after a text that does not end with white space is
      exactly what `trim` removes at the end. */
  lemma {:induction false} TrailingPadded(t: string, b: string)
    requires AllWhiteSpace(b)
    requires |t| > 0 ==> !IsWhiteSpace(t[|t| - 1])
    ensures Trailing(t + b) == |b|
    decreases |b|
  {
    if |b| > 0 {
      var s := t + b;
      assert s[|s| - 1] == b[|b| - 1];
      assert s[..|s| - 1] == t + b[..|b| - 1];
      TrailingPadded(t, b[..|b| - 1]);
    } else {
      assert t + b == t;
    }
  }

  /** `trim` gives back exactly the text between leading and trailing
      white space, when that text neither starts nor ends with white
      space. */
  lemma TrimPadded(a: string, x: string, b: string)
    requires AllWhiteSpace(a) && AllWhiteSpace(b)
    requires |x| > 0 ==> !IsWhiteSpace(x[0]) && !IsWhiteSpace(x[|x| - 1])
    ensures Trim(a + x + b) == x
  {
    var s := a + x + b;
    if |x| > 0 {
      assert s == a + (x + b);
      LeadingPadded(a, x + b);
      assert s[|a|..] == x + b;
      TrailingPadded(x, b);
      assert (x + b)[..|x|] == x;
    } else {
      assert s == (a + b) + [];
      LeadingPadded(a + b, []);
      assert s[|s|..] == [];
    }
  }

  /** Trimming is idempotent. */
  lemma TrimIdempotent(s: string)
    ensures Trim(Trim(s)) == Trim(s)
  {
    var r := Trim(s);
    assert [] + r + [] == r;
    TrimPadded([], r, []);
  }
}
