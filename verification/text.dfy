/** Character classes and string operations the chatbot relies on:
    `str.lower()`, `str.strip()`, `str.split()`, `in` on strings, and the
    tokeniser `re.findall("[A-Za-z0-9\-']{k,}", s)`.
    Case mapping and the `\d`/`\w` classes are ASCII; white space is the
    full set Python's `str.isspace()` accepts. */
module Text {
  import opened Seqs

  /** Python's `str.isspace()` on one character (also what `\s` matches). */
  predicate IsSpace(c: char) {
    var n := c as int;
    n == 32 || 9 <= n <= 13 || 28 <= n <= 31 || n == 0x85 || n == 0xA0 || n == 0x1680
    || 0x2000 <= n <= 0x200A || n == 0x2028 || n == 0x2029 || n == 0x202F || n == 0x205F
    || n == 0x3000
  }

  predicate IsDigit(c: char) { '0' <= c <= '9' }

  predicate IsUpper(c: char) { 'A' <= c <= 'Z' }

  predicate IsLetter(c: char) { IsUpper(c) || 'a' <= c <= 'z' }

  /** A character `\w` matches (ASCII part). */
  predicate IsWordChar(c: char) { IsLetter(c) || IsDigit(c) || c == '_' }

  /** The class `[A-Za-z0-9\-']` of the chatbot's tokeniser. */
  predicate IsTokenChar(c: char) { IsLetter(c) || IsDigit(c) || c == '-' || c == '\'' }

  /** ASCII lowercasing of one character: an upper-case letter becomes
      its lower-case partner, everything else is kept. */
  function LowerChar(c: char): (r: char)
    ensures IsUpper(c) ==> r as int == c as int + 32
    ensures !IsUpper(c) ==> r == c
    ensures !IsUpper(r)
    ensures IsTokenChar(r) <==> IsTokenChar(c)
    ensures IsSpace(r) <==> IsSpace(c)
  {
    if IsUpper(c) then (c as int + 32) as char else c
  }

  function UpperChar(c: char): char {
    if 'a' <= c <= 'z' then (c as int - 32) as char else c
  }

  /** `s.lower()`. */
  function Lower(s: string): (r: string)
    ensures |r| == |s|
    ensures forall i :: 0 <= i < |s| ==> r[i] == LowerChar(s[i])
  {
    Map(LowerChar, s)
  }

  /** Lowercasing is idempotent and never produces an upper-case letter. */
  lemma LowerIsLower(s: string)
    ensures forall i :: 0 <= i < |s| ==> !IsUpper(Lower(s)[i])
    ensures Lower(Lower(s)) == Lower(s)
  {
  }

  /** Text without upper-case letters is its own lowercase. */
  lemma LowerKeeps(s: string)
    requires forall i :: 0 <= i < |s| ==> !IsUpper(s[i])
    ensures Lower(s) == s
  {
  }

  /** `s.capitalize()`: first character upper case, the rest lower case. */
  function Capitalize(s: string): (r: string)
    ensures |r| == |s|
  {
    if |s| == 0 then "" else [UpperChar(s[0])] + Lower(s[1..])
  }

  /** `s.lstrip()`: the longest suffix of `s` that does not start with white space. */
  function TrimLeft(s: string): (r: string)
    ensures |r| <= |s| && r == s[|s| - |r|..]
    ensures forall i :: 0 <= i < |s| - |r| ==> IsSpace(s[i])
    ensures r != [] ==> !IsSpace(r[0])
    decreases |s|
  {
    if |s| > 0 && IsSpace(s[0]) then TrimLeft(s[1..]) else s
  }

  /** `s.rstrip()`: the longest prefix of `s` that does not end with white space. */
  function TrimRight(s: string): (r: string)
    ensures |r| <= |s| && r == s[..|r|]
    ensures forall i :: |r| <= i < |s| ==> IsSpace(s[i])
    ensures r != [] ==> !IsSpace(r[|r| - 1])
    decreases |s|
  {
    if |s| > 0 && IsSpace(s[|s| - 1]) then TrimRight(s[..|s| - 1]) else s
  }

  /** `r` is `s` minus `a` leading and some trailing white-space characters. */
  predicate SpaceAround(s: string, a: nat, r: string) {
    && a + |r| <= |s| && r == s[a..a + |r|]
    && (forall i :: 0 <= i < a ==> IsSpace(s[i]))
    && (forall i :: a + |r| <= i < |s| ==> IsSpace(s[i]))
  }

  /** `s.strip()`: what is left between the leading run of white space
      and the trailing one. */
  function Strip(s: string): (r: string)
    ensures exists a: nat :: SpaceAround(s, a, r)
    ensures r == [] <==> forall i :: 0 <= i < |s| ==> IsSpace(s[i])
    ensures r != [] ==> !IsSpace(r[0]) && !IsSpace(r[|r| - 1])
  {
    var t := TrimLeft(s);
    var r := TrimRight(t);
    TrimBoth(s, t, r);
    r
  }

  /** Trimming a suffix `t` of `s` on the right leaves `s` minus the
      leading white space before `t` and the trailing white space after `r`. */
  lemma TrimBoth(s: string, t: string, r: string)
    requires |t| <= |s| && t == s[|s| - |t|..] && forall i :: 0 <= i < |s| - |t| ==> IsSpace(s[i])
    requires |r| <= |t| && r == t[..|r|] && forall i :: |r| <= i < |t| ==> IsSpace(t[i])
    ensures SpaceAround(s, |s| - |t|, r)
  {
    var a := |s| - |t|;
    forall i | 0 <= i < |r| ensures r[i] == s[a + i] {
      assert r[i] == t[i];
    }
    assert r == s[a..a + |r|];
    forall i | a + |r| <= i < |s| ensures IsSpace(s[i]) {
      assert s[i] == t[i - a];
    }
  }

  /** Stripping leaves a string without surrounding white space alone. */
  lemma StripUnpadded(s: string)
    requires s != [] ==> !IsSpace(s[0]) && !IsSpace(s[|s| - 1])
    ensures Strip(s) == s
  {
  }

  predicate StartsWith(s: string, prefix: string) {
    |prefix| <= |s| && s[..|prefix|] == prefix
  }

  predicate EndsWith(s: string, suffix: string) {
    |suffix| <= |s| && s[|s| - |suffix|..] == suffix
  }

  /** `sub` occurs in `s` starting at index `i`. */
  predicate OccursAt(s: string, sub: string, i: nat) {
    i + |sub| <= |s| && s[i..i + |sub|] == sub
  }

  /** Every joined string occurs in the joined text. */
  lemma {:induction false} JoinHolds(xs: seq<string>, sep: string, k: nat)
    requires k < |xs|
    ensures exists a: nat :: OccursAt(Join(xs, sep), xs[k], a)
    decreases k
  {
    var j := Join(xs, sep);
    if k == 0 {
      assert OccursAt(j, xs[0], 0);
    } else {
      JoinHolds(xs[1..], sep, k - 1);
      var t := Join(xs[1..], sep);
      var a: nat :| OccursAt(t, xs[k], a);
      var d := |xs[0]| + |sep|;
      assert j == xs[0] + sep + t;
      assert j[d + a..d + a + |xs[k]|] == t[a..a + |xs[k]|];
      assert OccursAt(j, xs[k], d + a);
    }
  }

  /** An occurrence inside an occurrence is an occurrence. */
  lemma OccursWithin(s: string, k: string, i: nat, c: string, j: nat)
    requires OccursAt(s, k, i) && OccursAt(k, c, j)
    ensures OccursAt(s, c, i + j)
  {
    forall t | 0 <= t < |c| ensures s[i + j + t] == c[t] {
      assert s[i..i + |k|][j + t] == k[j + t];
      assert k[j..j + |c|][t] == c[t];
    }
  }

  /** A string cannot occur where one of its characters does not. */
  lemma AbsentChar(s: string, sub: string, k: nat, i: nat)
    requires k < |sub| && sub[k] !in s
    ensures !OccursAt(s, sub, i)
  {
  }

  /** Python's `sub in s`. */
  function Contains(s: string, sub: string): (r: bool)
    ensures r <==> exists i: nat :: OccursAt(s, sub, i)
    decreases |s|
  {
    if StartsWith(s, sub) then
      assert OccursAt(s, sub, 0);
      true
    else if |s| == 0 then false
    else
      var r := Contains(s[1..], sub);
      assert forall i: nat :: OccursAt(s[1..], sub, i) <==> OccursAt(s, sub, i + 1) by {
        forall i: nat ensures OccursAt(s[1..], sub, i) <==> OccursAt(s, sub, i + 1) {
          if i + 1 + |sub| <= |s| {
            assert s[1..][i..i + |sub|] == s[i + 1..i + 1 + |sub|];
          }
        }
      }
      assert forall i: nat :: OccursAt(s, sub, i) ==> i > 0;
      assert (exists i: nat :: OccursAt(s, sub, i)) ==> exists i: nat :: OccursAt(s[1..], sub, i) by {
        if i: nat :| OccursAt(s, sub, i) {
          assert OccursAt(s[1..], sub, i - 1);
        }
      }
      r
  }

  /** Length of the longest prefix of `s` made of `member` characters. */
  function RunLength(s: string, member: char -> bool): (n: nat)
    ensures n <= |s|
    ensures forall i :: 0 <= i < n ==> member(s[i])
    ensures n < |s| ==> !member(s[n])
    decreases |s|
  {
    if |s| == 0 || !member(s[0]) then 0 else 1 + RunLength(s[1..], member)
  }

  /** The maximal runs of `member` characters in `s`, left to right. */
  function Runs(s: string, member: char -> bool): (r: seq<string>)
    ensures forall k :: 0 <= k < |r| ==> |r[k]| > 0
    ensures forall k, i :: 0 <= k < |r| && 0 <= i < |r[k]| ==> member(r[k][i])
    decreases |s|
  {
    if |s| == 0 then []
    else if !member(s[0]) then Runs(s[1..], member)
    else
      var n := RunLength(s, member);
      [s[..n]] + Runs(s[n..], member)
  }

  /** `s[a..a + n]` is a maximal run of `member` characters: all of them
      members, with a non-member or an end of `s` on either side. */
  predicate MaximalRunAt(s: string, member: char -> bool, a: nat, n: nat) {
    && a + n <= |s|
    && (forall i :: a <= i < a + n ==> member(s[i]))
    && (a == 0 || !member(s[a - 1]))
    && (a + n == |s| || !member(s[a + n]))
  }

  ghost predicate IsMaximalRun(s: string, member: char -> bool, w: string) {
    exists a: nat :: MaximalRunAt(s, member, a, |w|) && s[a..a + |w|] == w
  }

  /** A run of members ended by a non-member or the end has the length
      `RunLength` gives. */
  lemma {:induction false} RunLengthIs(s: string, member: char -> bool, n: nat)
    requires n <= |s| && forall i :: 0 <= i < n ==> member(s[i])
    requires n == |s| || !member(s[n])
    ensures RunLength(s, member) == n
    decreases n
  {
    if n > 0 {
      RunLengthIs(s[1..], member, n - 1);
    }
  }

  /** The runs listed are exactly the non-empty maximal runs of `s`. */
  lemma RunsExact(s: string, member: char -> bool, w: string)
    ensures w in Runs(s, member) <==> w != [] && IsMaximalRun(s, member, w)
  {
    if w in Runs(s, member) {
      var k :| 0 <= k < |Runs(s, member)| && Runs(s, member)[k] == w;
      RunIsMaximal(s, member, k);
    }
    if w != [] && IsMaximalRun(s, member, w) {
      var a: nat :| MaximalRunAt(s, member, a, |w|) && s[a..a + |w|] == w;
      MaximalRunListed(s, member, a, |w|);
    }
  }

  /** A maximal run of a suffix `s[d..]` is one of `s`, unless it starts
      the suffix right after a member. */
  lemma RunOfSuffix(s: string, member: char -> bool, d: nat, w: string)
    requires d <= |s| && IsMaximalRun(s[d..], member, w)
    requires d == 0 || !member(s[d - 1]) || (w != [] && d < |s| && !member(s[d]))
    ensures IsMaximalRun(s, member, w)
  {
    var t := s[d..];
    var a: nat :| MaximalRunAt(t, member, a, |w|) && t[a..a + |w|] == w;
    assert a == 0 ==> d == 0 || !member(s[d - 1]);
    assert forall i :: a + d <= i < a + d + |w| ==> s[i] == t[i - d];
    assert s[a + d..a + d + |w|] == w;
    assert MaximalRunAt(s, member, a + d, |w|);
  }

  /** A maximal run of `s` that starts at or after `d` is one of `s[d..]`. */
  lemma UnshiftRun(s: string, member: char -> bool, d: nat, a: nat, n: nat)
    requires d <= a && MaximalRunAt(s, member, a, n)
    ensures MaximalRunAt(s[d..], member, a - d, n) && s[d..][a - d..a - d + n] == s[a..a + n]
  {
    var t := s[d..];
    assert forall i :: a - d <= i < a - d + n ==> t[i] == s[i + d];
  }

  lemma {:induction false} RunIsMaximal(s: string, member: char -> bool, k: nat)
    requires k < |Runs(s, member)|
    ensures IsMaximalRun(s, member, Runs(s, member)[k])
    decreases |s|
  {
    if !member(s[0]) {
      RunIsMaximal(s[1..], member, k);
      SkippedRunIsMaximal(s, member, k);
    } else {
      var n := RunLength(s, member);
      assert Runs(s, member) == [s[..n]] + Runs(s[n..], member);
      if k == 0 {
        assert MaximalRunAt(s, member, 0, n) && s[0..n] == s[..n];
      } else {
        RunIsMaximal(s[n..], member, k - 1);
        LaterRunIsMaximal(s, member, k);
      }
    }
  }

  /** A maximal run after a leading non-member is one of the whole text. */
  lemma SkippedRunIsMaximal(s: string, member: char -> bool, k: nat)
    requires s != [] && !member(s[0])
    requires k < |Runs(s[1..], member)| && IsMaximalRun(s[1..], member, Runs(s[1..], member)[k])
    ensures k < |Runs(s, member)| && IsMaximalRun(s, member, Runs(s, member)[k])
  {
    assert Runs(s, member) == Runs(s[1..], member);
    RunOfSuffix(s, member, 1, Runs(s[1..], member)[k]);
  }

  /** A maximal run after the leading run is one of the whole text. */
  lemma LaterRunIsMaximal(s: string, member: char -> bool, k: nat)
    requires s != [] && member(s[0]) && 0 < k
    requires var n := RunLength(s, member);
      k - 1 < |Runs(s[n..], member)| && IsMaximalRun(s[n..], member, Runs(s[n..], member)[k - 1])
    ensures k < |Runs(s, member)| && IsMaximalRun(s, member, Runs(s, member)[k])
  {
    var n := RunLength(s, member);
    var t := s[n..];
    var w := Runs(t, member)[k - 1];
    assert Runs(s, member) == [s[..n]] + Runs(t, member);
    assert Runs(s, member)[k] == w;
    assert t != [] && !member(t[0]) && |w| > 0;
    RunOfSuffix(s, member, n, w);
  }

  lemma {:induction false} MaximalRunListed(s: string, member: char -> bool, a: nat, n: nat)
    requires n > 0 && MaximalRunAt(s, member, a, n)
    ensures s[a..a + n] in Runs(s, member)
    decreases |s|
  {
    var m := if member(s[0]) then RunLength(s, member) else 1;
    if member(s[0]) && a == 0 {
      RunLengthIs(s, member, n);
      assert Runs(s, member) == [s[..m]] + Runs(s[m..], member);
    } else {
      LaterRunStart(s, member, a, n);
      UnshiftRun(s, member, m, a, n);
      MaximalRunListed(s[m..], member, a - m, n);
      RunsOfSuffixListed(s, member, m, s[a..a + n]);
    }
  }

  /** A maximal run other than a leading one starts after the leading
      non-member or the leading run. */
  lemma LaterRunStart(s: string, member: char -> bool, a: nat, n: nat)
    requires n > 0 && MaximalRunAt(s, member, a, n) && !(member(s[0]) && a == 0)
    ensures a >= if member(s[0]) then RunLength(s, member) else 1
  {
    if member(s[0]) {
      assert a > 0 && !member(s[a - 1]);
    }
  }

  /** After a leading non-member, or after the leading run, the runs of
      the rest are runs of the whole text. */
  lemma RunsOfSuffixListed(s: string, member: char -> bool, m: nat, w: string)
    requires s != [] && m == if member(s[0]) then RunLength(s, member) else 1
    requires w in Runs(s[m..], member)
    ensures w in Runs(s, member)
  {
    if member(s[0]) {
      assert Runs(s, member) == [s[..m]] + Runs(s[m..], member);
    }
  }

  /** Nothing is lost or reordered: the runs, concatenated, are exactly the
      `member` characters of `s` in order. */
  lemma {:induction false} RunsCoverMembers(s: string, member: char -> bool)
    ensures Flatten(Runs(s, member)) == Filter(s, member)
    decreases |s|
  {
    if |s| > 0 {
      if !member(s[0]) {
        RunsCoverMembers(s[1..], member);
      } else {
        var n := RunLength(s, member);
        RunsCoverMembers(s[n..], member);
        FilterKeepAll(s[..n], member);
        FilterAppend(s[..n], s[n..], member);
        assert s[..n] + s[n..] == s;
      }
    }
  }

  lemma {:induction false} FilterAppend(a: string, b: string, member: char -> bool)
    ensures Filter(a + b, member) == Filter(a, member) + Filter(b, member)
    decreases |a|
  {
    if |a| > 0 {
      FilterAppend(a[1..], b, member);
      assert (a + b)[1..] == a[1..] + b;
    } else {
      assert a + b == b;
    }
  }

  predicate NonSpace(c: char) { !IsSpace(c) }

  /** `s.split()`: the maximal runs of non-white-space characters. */
  function Split(s: string): (r: seq<string>)
    ensures forall k, i :: 0 <= k < |r| && 0 <= i < |r[k]| ==> !IsSpace(r[k][i])
    ensures forall k :: 0 <= k < |r| ==> |r[k]| > 0
  {
    Runs(s, NonSpace)
  }

  /** The words of `s.split()` are exactly its maximal runs of
      non-white-space characters. */
  lemma SplitWords(s: string, w: string)
    ensures w in Split(s) <==> w != [] && IsMaximalRun(s, NonSpace, w)
  {
    RunsExact(s, NonSpace, w);
  }

  /** `re.findall(r"[A-Za-z0-9\-']{k,}", s)`: the maximal runs of token
      characters that are at least `k` long (a shorter run cannot match at
      any of its positions, a longer one is taken whole by the greedy
      repetition). */
  function Tokens(s: string, k: nat): (r: seq<string>)
    ensures forall j :: 0 <= j < |r| ==> |r[j]| >= k && |r[j]| > 0
    ensures forall j, i :: 0 <= j < |r| && 0 <= i < |r[j]| ==> IsTokenChar(r[j][i])
  {
    Filter(Runs(s, IsTokenChar), AtLeast(k))
  }

  function AtLeast(k: nat): string -> bool {
    (w: string) => |w| >= k
  }

  /** The matches of the tokeniser are exactly the maximal runs of token
      characters that are at least `k` long. */
  lemma TokensExact(s: string, k: nat, w: string)
    ensures w in Tokens(s, k) <==> |w| >= k && w != [] && IsMaximalRun(s, IsTokenChar, w)
  {
    var runs := Runs(s, IsTokenChar);
    RunsExact(s, IsTokenChar, w);
    if w in runs {
      var j :| 0 <= j < |runs| && runs[j] == w;
      assert (w in Tokens(s, k)) == AtLeast(k)(runs[j]);
    }
  }
}
