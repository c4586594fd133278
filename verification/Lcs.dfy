/** The longest common subsequence of two line lists: the table fill and the traceback of
    13. diff tool/diff_tool.c, whose tie-breaks differ. */
module Lcs {

  const LEN: nat := 1001

  /** c can be read off the first n lines of s at the strictly increasing positions `at`. */
  ghost predicate Embeds(c: seq<string>, s: seq<string>, n: nat, at: seq<nat>)
    requires n <= |s|
  {
    && |at| == |c|
    && (forall k :: 0 <= k < |at| ==> at[k] < n && s[at[k]] == c[k])
    && (forall j, k :: 0 <= j < k < |at| ==> at[j] < at[k])
  }

  ghost predicate IsSubsequence(c: seq<string>, s: seq<string>) {
    exists at :: Embeds(c, s, |s|, at)
  }

  ghost predicate IsCommon(c: seq<string>, a: seq<string>, b: seq<string>) {
    IsSubsequence(c, a) && IsSubsequence(c, b)
  }

  ghost predicate IsLongestCommon(c: seq<string>, a: seq<string>, b: seq<string>) {
    IsCommon(c, a, b) && forall d :: IsCommon(d, a, b) ==> |d| <= |c|
  }

  /** What the table holds at row i, column j: the fill keeps the upper cell on a tie. */
  function Length(a: seq<string>, b: seq<string>, i: nat, j: nat): nat
    requires i <= |a| && j <= |b|
    decreases i + j
  {
    if i == 0 || j == 0 then 0
    else if a[i - 1] == b[j - 1] then Length(a, b, i - 1, j - 1) + 1
    else if Length(a, b, i - 1, j) >= Length(a, b, i, j - 1) then Length(a, b, i - 1, j)
    else Length(a, b, i, j - 1)
  }

  /** What the traceback collects from row i, column j: it moves left on a tie. */
  function Traceback(a: seq<string>, b: seq<string>, i: nat, j: nat): (c: seq<string>)
    requires i <= |a| && j <= |b|
    ensures |c| == Length(a, b, i, j)
    decreases i + j
  {
    if i == 0 || j == 0 then []
    else if a[i - 1] == b[j - 1] then Traceback(a, b, i - 1, j - 1) + [a[i - 1]]
    else if Length(a, b, i - 1, j) > Length(a, b, i, j - 1) then Traceback(a, b, i - 1, j)
    else Traceback(a, b, i, j - 1)
  }

  lemma EmbedsLast(c: seq<string>, s: seq<string>, n: nat, at: seq<nat>)
    requires n < |s| && Embeds(c, s, n, at)
    ensures Embeds(c + [s[n]], s, n + 1, at + [n])
  {
  }

  lemma EmbedsWider(c: seq<string>, s: seq<string>, n: nat, at: seq<nat>)
    requires n < |s| && Embeds(c, s, n, at)
    ensures Embeds(c, s, n + 1, at)
  {
  }

  /** Every collected line comes from both lists, in order. */
  lemma {:induction false} TracebackIsCommon(a: seq<string>, b: seq<string>, i: nat, j: nat)
    returns (f: seq<nat>, g: seq<nat>)
    requires i <= |a| && j <= |b|
    ensures Embeds(Traceback(a, b, i, j), a, i, f) && Embeds(Traceback(a, b, i, j), b, j, g)
    decreases i + j
  {
    var c := Traceback(a, b, i, j);
    if i == 0 || j == 0 {
      f, g := [], [];
    } else if a[i - 1] == b[j - 1] {
      var d := Traceback(a, b, i - 1, j - 1);
      assert c == d + [a[i - 1]];
      f, g := TracebackIsCommon(a, b, i - 1, j - 1);
      EmbedsLast(d, a, i - 1, f);
      EmbedsLast(d, b, j - 1, g);
      f, g := f + [i - 1], g + [j - 1];
    } else if Length(a, b, i - 1, j) > Length(a, b, i, j - 1) {
      assert c == Traceback(a, b, i - 1, j);
      f, g := TracebackIsCommon(a, b, i - 1, j);
      EmbedsWider(c, a, i - 1, f);
    } else {
      assert c == Traceback(a, b, i, j - 1);
      f, g := TracebackIsCommon(a, b, i, j - 1);
      EmbedsWider(c, b, j - 1, g);
    }
  }

  lemma EmbedsDropLast(c: seq<string>, s: seq<string>, n: nat, at: seq<nat>)
    requires n < |s| && c != [] && Embeds(c, s, n + 1, at)
    ensures Embeds(c[..|c| - 1], s, n, at[..|at| - 1])
    ensures at[|at| - 1] != n ==> Embeds(c, s, n, at)
  {
  }

  lemma EmbedsSomewhere(c: seq<string>, s: seq<string>, n: nat, at: seq<nat>)
    requires n <= |s| && Embeds(c, s, n, at)
    ensures c != [] ==> n > 0
  {
    if c != [] {
      assert at[0] < n;
    }
  }

  /** No common subsequence is longer than the table entry. */
  lemma {:induction false} CommonIsNoLonger(c: seq<string>, a: seq<string>, b: seq<string>, i: nat, j: nat, f: seq<nat>, g: seq<nat>)
    requires i <= |a| && j <= |b|
    requires Embeds(c, a, i, f) && Embeds(c, b, j, g)
    ensures |c| <= Length(a, b, i, j)
    decreases i + j
  {
    EmbedsSomewhere(c, a, i, f);
    EmbedsSomewhere(c, b, j, g);
    if c != [] {
      EmbedsDropLast(c, a, i - 1, f);
      EmbedsDropLast(c, b, j - 1, g);
      if a[i - 1] == b[j - 1] {
        CommonIsNoLonger(c[..|c| - 1], a, b, i - 1, j - 1, f[..|f| - 1], g[..|g| - 1]);
      } else if f[|f| - 1] != i - 1 {
        CommonIsNoLonger(c, a, b, i - 1, j, f, g);
      } else {
        assert c[|c| - 1] == a[i - 1];
        CommonIsNoLonger(c, a, b, i, j - 1, f, g);
      }
    }
  }

  lemma LengthBoundsCommon(c: seq<string>, a: seq<string>, b: seq<string>)
    requires IsCommon(c, a, b)
    ensures |c| <= Length(a, b, |a|, |b|)
  {
    var f :| Embeds(c, a, |a|, f);
    var g :| Embeds(c, b, |b|, g);
    CommonIsNoLonger(c, a, b, |a|, |b|, f, g);
  }

  /** The traceback of the full table is optimal, whatever its tie-break does. */
  lemma {:induction false} TracebackIsLongest(a: seq<string>, b: seq<string>)
    ensures IsLongestCommon(Traceback(a, b, |a|, |b|), a, b)
  {
    var c := Traceback(a, b, |a|, |b|);
    var f, g := TracebackIsCommon(a, b, |a|, |b|);
    assert Embeds(c, a, |a|, f) && Embeds(c, b, |b|, g);
    forall d | IsCommon(d, a, b) ensures |d| <= |c| {
      LengthBoundsCommon(d, a, b);
    }
  }

  // ----- which longest subsequence it is -----

  /** d is read off the first i lines of a at f and the first j lines of b at g. */
  ghost predicate Reads(d: seq<string>, a: seq<string>, i: nat, f: seq<nat>, b: seq<string>, j: nat, g: seq<nat>)
    requires i <= |a| && j <= |b|
  {
    Embeds(d, a, i, f) && Embeds(d, b, j, g)
  }

  /** No common subsequence of that length has any of its lines later in a than f has it. */
  ghost predicate IsLatest(f: seq<nat>, a: seq<string>, i: nat, b: seq<string>, j: nat)
    requires i <= |a| && j <= |b|
  {
    forall d, p, q :: Reads(d, a, i, p, b, j, q) && |d| == |f| ==> forall k :: 0 <= k < |f| ==> p[k] <= f[k]
  }

  lemma ReadsWithin(d: seq<string>, a: seq<string>, i: nat, f: seq<nat>, b: seq<string>, j: nat, g: seq<nat>, i': nat, j': nat)
    requires i <= |a| && j <= |b| && Reads(d, a, i, f, b, j, g) && i' <= i && j' <= j
    requires d != [] && f[|f| - 1] < i' && g[|g| - 1] < j'
    ensures Reads(d, a, i', f, b, j', g)
  {
  }

  lemma ReadsFront(d: seq<string>, a: seq<string>, i: nat, f: seq<nat>, b: seq<string>, j: nat, g: seq<nat>)
    requires 0 < i <= |a| && 0 < j <= |b| && d != [] && Reads(d, a, i, f, b, j, g)
    ensures Reads(d[..|d| - 1], a, i - 1, f[..|f| - 1], b, j - 1, g[..|g| - 1])
  {
    EmbedsDropLast(d, a, i - 1, f);
    EmbedsDropLast(d, b, j - 1, g);
  }

  /** Up to line k as one reads it, and from line m on as the other: the lines stay in order in both
      lists when both positions step forward. */
  lemma Splice(d: seq<string>, f: seq<nat>, g: seq<nat>, e: seq<string>, p: seq<nat>, q: seq<nat>,
      a: seq<string>, i: nat, b: seq<string>, j: nat, k: nat, m: nat)
    requires i <= |a| && j <= |b| && Reads(d, a, i, f, b, j, g) && Reads(e, a, i, p, b, j, q)
    requires k < |d| && m <= |e| && (m < |e| ==> f[k] < p[m] && g[k] < q[m])
    ensures Reads(d[..k + 1] + e[m..], a, i, f[..k + 1] + p[m..], b, j, g[..k + 1] + q[m..])
  {
    SpliceOne(d, f, e, p, a, i, k, m);
    SpliceOne(d, g, e, q, b, j, k, m);
  }

  lemma SpliceOne(d: seq<string>, f: seq<nat>, e: seq<string>, p: seq<nat>, s: seq<string>, n: nat, k: nat, m: nat)
    requires n <= |s| && Embeds(d, s, n, f) && Embeds(e, s, n, p)
    requires k < |d| && m <= |e| && (m < |e| ==> f[k] < p[m])
    ensures Embeds(d[..k + 1] + e[m..], s, n, f[..k + 1] + p[m..])
  {
    var at := f[..k + 1] + p[m..];
    forall x, y | 0 <= x < y < |at| ensures at[x] < at[y] {
      if x <= k < y {
        assert f[x] <= f[k] && p[m] <= p[y - k - 1 + m];
      }
    }
  }

  lemma ReadsIsNoLonger(d: seq<string>, a: seq<string>, i: nat, f: seq<nat>, b: seq<string>, j: nat, g: seq<nat>)
    requires i <= |a| && j <= |b| && Reads(d, a, i, f, b, j, g)
    ensures |d| <= Length(a, b, i, j)
  {
    CommonIsNoLonger(d, a, b, i, j, f, g);
  }

  /** Two longest readings never step ahead of each other in both lists at once. */
  lemma NotAheadInBoth(c: seq<string>, a: seq<string>, i: nat, f: seq<nat>, b: seq<string>, j: nat, g: seq<nat>,
      d: seq<string>, p: seq<nat>, q: seq<nat>, k: nat)
    requires i <= |a| && j <= |b| && Reads(c, a, i, f, b, j, g) && Reads(d, a, i, p, b, j, q)
    requires |c| == Length(a, b, i, j) == |d| && k < |c|
    ensures p[k] <= f[k] || q[k] <= g[k]
  {
    if p[k] > f[k] && q[k] > g[k] {
      Splice(c, f, g, d, p, q, a, i, b, j, k, k);
      ReadsIsNoLonger(c[..k + 1] + d[k..], a, i, f[..k + 1] + p[k..], b, j, g[..k + 1] + q[k..]);
    }
  }

  lemma EmbedsPrefix(d: seq<string>, s: seq<string>, n: nat, at: seq<nat>, k: nat, bound: nat)
    requires n <= |s| && Embeds(d, s, n, at) && k < |d| && at[k] < bound <= |s|
    ensures Embeds(d[..k + 1], s, bound, at[..k + 1])
  {}

  lemma SplicedReads(c: seq<string>, a: seq<string>, i: nat, f: seq<nat>, b: seq<string>, j: nat, g: seq<nat>,
      d: seq<string>, p: seq<nat>, q: seq<nat>, k: nat)
    requires i <= |a| && 0 < j <= |b| && Reads(c, a, i, f, b, j - 1, g)
    requires Reads(d, a, i, p, b, j, q) && |d| == |c| && k < |c|
    requires q[k] <= g[k] && (k + 1 < |c| ==> p[k + 1] <= f[k + 1])
    ensures Reads(d[..k + 1] + c[k + 1..], a, i, p[..k + 1] + f[k + 1..], b, j - 1, q[..k + 1] + g[k + 1..])
  {
    SpliceOne(d, p, c, f, a, i, k, k + 1);
    EmbedsPrefix(d, b, j, q, k, j - 1);
    SpliceOne(d[..k + 1], q[..k + 1], c, g, b, j - 1, k, k + 1);
    assert d[..k + 1][..k + 1] == d[..k + 1] && q[..k + 1][..k + 1] == q[..k + 1];
  }

  lemma LatestStays(c: seq<string>, a: seq<string>, i: nat, f: seq<nat>, b: seq<string>, j: nat, g: seq<nat>,
      d: seq<string>, p: seq<nat>, q: seq<nat>, k: nat)
    requires i <= |a| && 0 < j <= |b| && Reads(c, a, i, f, b, j - 1, g) && IsLatest(f, a, i, b, j - 1)
    requires Reads(d, a, i, p, b, j, q) && |d| == |c| && k < |c|
    requires q[k] <= g[k] && (k + 1 < |c| ==> p[k + 1] <= f[k + 1])
    ensures p[k] <= f[k]
  {
    SplicedReads(c, a, i, f, b, j, g, d, p, q, k);
    var x := p[..k + 1] + f[k + 1..];
    assert x[k] == p[k];
  }

  /** The case of a step to the left: a reading that ends on the column left behind has no line
      later than the readings that do without it. */
  lemma {:induction false} LastColumnNoLater(c: seq<string>, a: seq<string>, i: nat, f: seq<nat>, b: seq<string>, j: nat, g: seq<nat>,
      d: seq<string>, p: seq<nat>, q: seq<nat>, k: nat)
    requires i <= |a| && 0 < j <= |b| && Reads(c, a, i, f, b, j - 1, g) && IsLatest(f, a, i, b, j - 1)
    requires |c| == Length(a, b, i, j) == |d| && Reads(d, a, i, p, b, j, q) && k <= |c|
    ensures forall m :: k <= m < |c| ==> p[m] <= f[m]
    decreases |c| - k
  {
    if k < |c| {
      LastColumnNoLater(c, a, i, f, b, j, g, d, p, q, k + 1);
      EmbedsWider(c, b, j - 1, g);
      NotAheadInBoth(c, a, i, f, b, j, g, d, p, q, k);
      if q[k] <= g[k] {
        LatestStays(c, a, i, f, b, j, g, d, p, q, k);
      }
    }
  }

  lemma Shorter(d: seq<string>, a: seq<string>, i: nat, p: seq<nat>, b: seq<string>, j: nat, q: seq<nat>)
    requires 0 < i <= |a| && 0 < j <= |b| && Reads(d, a, i, p, b, j, q) && d != []
    requires a[i - 1] != b[j - 1] && |d| > Length(a, b, i, j - 1)
    ensures p[|p| - 1] < i - 1
  {
    if p[|p| - 1] == i - 1 {
      assert a[i - 1] == d[|d| - 1] == b[q[|q| - 1]];
      ReadsWithin(d, a, i, p, b, j, q, i, j - 1);
      ReadsIsNoLonger(d, a, i, p, b, j - 1, q);
    }
  }

  lemma LatestAfterMatch(f: seq<nat>, a: seq<string>, i: nat, b: seq<string>, j: nat)
    requires 0 < i <= |a| && 0 < j <= |b| && IsLatest(f, a, i - 1, b, j - 1)
    ensures IsLatest(f + [i - 1], a, i, b, j)
  {
    forall d, p, q, k | Reads(d, a, i, p, b, j, q) && |d| == |f| + 1 && 0 <= k < |f| + 1
      ensures p[k] <= (f + [i - 1])[k]
    {
      ReadsFront(d, a, i, p, b, j, q);
      assert k < |f| ==> p[..|p| - 1][k] <= f[k];
    }
  }

  lemma LatestAfterUp(f: seq<nat>, a: seq<string>, i: nat, b: seq<string>, j: nat)
    requires 0 < i <= |a| && 0 < j <= |b| && IsLatest(f, a, i - 1, b, j)
    requires a[i - 1] != b[j - 1] && |f| > Length(a, b, i, j - 1)
    ensures IsLatest(f, a, i, b, j)
  {
    forall d, p, q, k | Reads(d, a, i, p, b, j, q) && |d| == |f| && 0 <= k < |f| ensures p[k] <= f[k] {
      Shorter(d, a, i, p, b, j, q);
      ReadsWithin(d, a, i, p, b, j, q, i - 1, j);
    }
  }

  lemma LatestAfterLeft(c: seq<string>, f: seq<nat>, g: seq<nat>, a: seq<string>, i: nat, b: seq<string>, j: nat)
    requires i <= |a| && 0 < j <= |b| && Reads(c, a, i, f, b, j - 1, g) && IsLatest(f, a, i, b, j - 1)
    requires |c| == Length(a, b, i, j)
    ensures IsLatest(f, a, i, b, j)
  {
    forall d, p, q, k | Reads(d, a, i, p, b, j, q) && |d| == |f| && 0 <= k < |f| ensures p[k] <= f[k] {
      LastColumnNoLater(c, a, i, f, b, j, g, d, p, q, 0);
    }
  }

  /** Of all longest common subsequences the traceback returns the one whose lines stand latest in
      the first list, line by line. */
  lemma {:induction false} TracebackIsLatest(a: seq<string>, b: seq<string>, i: nat, j: nat) returns (f: seq<nat>, g: seq<nat>)
    requires i <= |a| && j <= |b|
    ensures Reads(Traceback(a, b, i, j), a, i, f, b, j, g) && IsLatest(f, a, i, b, j)
    decreases i + j
  {
    var c := Traceback(a, b, i, j);
    if i == 0 || j == 0 {
      f, g := [], [];
    } else if a[i - 1] == b[j - 1] {
      f, g := TracebackIsLatest(a, b, i - 1, j - 1);
      EmbedsLast(Traceback(a, b, i - 1, j - 1), a, i - 1, f);
      EmbedsLast(Traceback(a, b, i - 1, j - 1), b, j - 1, g);
      LatestAfterMatch(f, a, i, b, j);
      f, g := f + [i - 1], g + [j - 1];
    } else if Length(a, b, i - 1, j) > Length(a, b, i, j - 1) {
      f, g := TracebackIsLatest(a, b, i - 1, j);
      EmbedsWider(c, a, i - 1, f);
      LatestAfterUp(f, a, i, b, j);
    } else {
      f, g := TracebackIsLatest(a, b, i, j - 1);
      LatestAfterLeft(c, f, g, a, i, b, j);
      EmbedsWider(c, b, j - 1, g);
    }
  }

  // ----- the code -----

  /** The table fill. */
  method FillTable(a: seq<string>, b: seq<string>) returns (dp: array2<nat>)
    requires |a| <= 1000 && |b| <= 1000
    ensures fresh(dp) && dp.Length0 == LEN && dp.Length1 == LEN
    ensures forall i, j {:trigger dp[i, j]} :: 0 <= i <= |a| && 0 <= j <= |b| ==> dp[i, j] == Length(a, b, i, j)
  {
    var n, m := |a|, |b|;
    dp := new nat[LEN, LEN]((_, _) => 0);
    for i := 1 to n + 1
      invariant forall x, y {:trigger dp[x, y]} :: 0 <= x < i && 0 <= y <= m ==> dp[x, y] == Length(a, b, x, y)
      invariant forall x :: 0 <= x < LEN ==> dp[x, 0] == 0
    {
      for j := 1 to m + 1
        invariant forall x, y {:trigger dp[x, y]} :: 0 <= x < i && 0 <= y <= m ==> dp[x, y] == Length(a, b, x, y)
        invariant forall y {:trigger dp[i, y]} :: 0 <= y < j ==> dp[i, y] == Length(a, b, i, y)
        invariant forall x :: 0 <= x < LEN ==> dp[x, 0] == 0
      {
        if a[i - 1] == b[j - 1] {
          dp[i, j] := dp[i - 1, j - 1] + 1;
        } else if dp[i - 1, j] >= dp[i, j - 1] {
          dp[i, j] := dp[i - 1, j];
        } else {
          dp[i, j] := dp[i, j - 1];
        }
      }
    }
  }

  /** lcs_lines: every slot of the result is written, and the lines are a longest common
      subsequence. */
  method LcsLines(a: seq<string>, b: seq<string>) returns (result: array<string>)
    requires |a| <= 1000 && |b| <= 1000
    ensures fresh(result)
    ensures result[..] == Traceback(a, b, |a|, |b|)
    ensures IsLongestCommon(result[..], a, b)
  {
    var dp := FillTable(a, b);
    var i, j := |a|, |b|;
    result := new string[dp[i, j]];
    var idx := dp[i, j];
    while i > 0 && j > 0
      modifies result
      invariant 0 <= i <= |a| && 0 <= j <= |b|
      invariant idx == dp[i, j] && idx <= result.Length
      invariant Traceback(a, b, |a|, |b|) == Traceback(a, b, i, j) + result[idx..]
      decreases i + j
    {
      if a[i - 1] == b[j - 1] {
        ghost var rest := result[idx..];
        idx := idx - 1;
        result[idx] := a[i - 1];
        assert result[idx..] == [a[i - 1]] + rest;
        i := i - 1;
        j := j - 1;
      } else if dp[i - 1, j] > dp[i, j - 1] {
        i := i - 1;
      } else {
        j := j - 1;
      }
    }
    assert idx == 0 && result[0..] == result[..];
    TracebackIsLongest(a, b);
  }
}
