/** The grouping loop of 10. uniq/uniq.c: a streaming run-length encoder with filters. */
module Uniq {
  import opened Decimal
  import opened Framing

  datatype Group = Group(count: nat, line: string)

  /** -c, -d and -u. */
  datatype Flags = Flags(printCount: bool, repeatedOnly: bool, uniqueOnly: bool)

  // ----- run-length encoding -----

  /** How many lines at the start equal the first. */
  function RunLength(lines: seq<string>): (n: nat)
    requires lines != []
    ensures 0 < n <= |lines|
  {
    if |lines| == 1 || lines[1] != lines[0] then 1 else 1 + RunLength(lines[1..])
  }

  function Groups(lines: seq<string>): seq<Group>
    decreases |lines|
  {
    if lines == [] then []
    else
      var n := RunLength(lines);
      [Group(n, lines[0])] + Groups(lines[n..])
  }

  /** The lines a list of groups stands for. */
  function Expand(gs: seq<Group>): seq<string> {
    if gs == [] then [] else Repeat(gs[0].line, gs[0].count) + Expand(gs[1..])
  }

  function Total(gs: seq<Group>): nat {
    if gs == [] then 0 else gs[0].count + Total(gs[1..])
  }

  /** Positive counts, and neighbours that differ. */
  predicate Canonical(gs: seq<Group>) {
    && (forall i :: 0 <= i < |gs| ==> gs[i].count > 0)
    && (forall i :: 0 < i < |gs| ==> gs[i - 1].line != gs[i].line)
  }

  lemma {:induction false} RunIsRepeat(lines: seq<string>)
    requires lines != []
    ensures var n := RunLength(lines);
      lines[..n] == Repeat(lines[0], n) && (n < |lines| ==> lines[n] != lines[0])
    decreases |lines|
  {
    if |lines| > 1 && lines[1] == lines[0] {
      RunIsRepeat(lines[1..]);
      var n := RunLength(lines);
      forall i | 0 < i < n ensures lines[i] == lines[0] {
        assert lines[i] == lines[1..][..n - 1][i - 1];
      }
    }
  }

  lemma CanonicalFront(g: Group, gs: seq<Group>)
    requires g.count > 0 && Canonical(gs) && (gs != [] ==> gs[0].line != g.line)
    ensures Canonical([g] + gs)
  {}

  lemma {:induction false} GroupsCanonical(lines: seq<string>)
    ensures Canonical(Groups(lines))
    ensures lines != [] ==> Groups(lines) != [] && Groups(lines)[0].line == lines[0]
    decreases |lines|
  {
    if lines != [] {
      var n := RunLength(lines);
      RunIsRepeat(lines);
      GroupsCanonical(lines[n..]);
      CanonicalFront(Group(n, lines[0]), Groups(lines[n..]));
    }
  }

  lemma ExpandFront(g: Group, gs: seq<Group>)
    ensures Expand([g] + gs) == Repeat(g.line, g.count) + Expand(gs)
  {
    assert ([g] + gs)[1..] == gs;
  }

  lemma RunSplits(lines: seq<string>)
    requires lines != []
    ensures Repeat(lines[0], RunLength(lines)) + lines[RunLength(lines)..] == lines
  {
    var n := RunLength(lines);
    RunIsRepeat(lines);
    assert lines[..n] + lines[n..] == lines;
  }

  lemma {:induction false} GroupsExpand(lines: seq<string>)
    ensures Expand(Groups(lines)) == lines
    decreases |lines|
  {
    if lines != [] {
      var n := RunLength(lines);
      GroupsExpand(lines[n..]);
      ExpandFront(Group(n, lines[0]), Groups(lines[n..]));
      RunSplits(lines);
    }
  }

  lemma {:induction false} GroupsTotal(lines: seq<string>)
    ensures Total(Groups(lines)) == |lines|
    decreases |lines|
  {
    if lines != [] {
      GroupsTotal(lines[RunLength(lines)..]);
      assert Groups(lines)[1..] == Groups(lines[RunLength(lines)..]);
    }
  }

  lemma RunOfExpansion(g: Group, gs: seq<Group>)
    requires Canonical([g] + gs)
    ensures var lines := Expand([g] + gs);
      lines != [] && lines[0] == g.line && RunLength(lines) == g.count && lines[g.count..] == Expand(gs)
  {
    var all := [g] + gs;
    var lines := Expand(all);
    ExpandFront(g, gs);
    assert all[0] == g;
    if gs != [] {
      assert all[0].line != all[1].line && all[1].count > 0;
      ExpandFront(gs[0], gs[1..]);
      assert gs == [gs[0]] + gs[1..];
      assert lines[g.count] == Expand(gs)[0] == gs[0].line;
    }
    RunLengthIs(lines, g.count);
  }

  lemma {:induction false} RunLengthIs(lines: seq<string>, n: nat)
    requires 0 < n <= |lines| && (forall i :: 0 <= i < n ==> lines[i] == lines[0])
    requires n < |lines| ==> lines[n] != lines[0]
    ensures RunLength(lines) == n
  {
    if n > 1 {
      assert lines[1] == lines[0];
      RunLengthIs(lines[1..], n - 1);
    }
  }

  lemma {:induction false} GroupsOfExpansion(gs: seq<Group>)
    requires Canonical(gs)
    ensures Groups(Expand(gs)) == gs
  {
    if gs != [] {
      assert gs == [gs[0]] + gs[1..];
      RunOfExpansion(gs[0], gs[1..]);
      assert Canonical(gs[1..]) by {
        forall i | 0 < i < |gs[1..]| ensures gs[1..][i - 1].line != gs[1..][i].line {
          assert gs[i].line != gs[i + 1].line;
        }
      }
      GroupsOfExpansion(gs[1..]);
    }
  }

  /** uniq is run-length encoding: its groups are the one list with positive counts and
      differing neighbours that expands to the lines. */
  lemma {:induction false} GroupsIff(lines: seq<string>, gs: seq<Group>)
    ensures gs == Groups(lines) <==> Canonical(gs) && Expand(gs) == lines
    ensures Total(Groups(lines)) == |lines|
  {
    GroupsCanonical(lines);
    GroupsExpand(lines);
    GroupsTotal(lines);
    if Canonical(gs) {
      GroupsOfExpansion(gs);
    }
  }

  // ----- filters and printing -----

  predicate Shown(f: Flags, count: nat) {
    if f.uniqueOnly then count == 1
    else if f.repeatedOnly then count > 1
    else true
  }

  /** "%3d %s" with -c, the line otherwise. */
  function Printed(f: Flags, g: Group): string {
    if f.printCount then Pad3(Text(g.count)) + " " + g.line else g.line
  }

  function Pad3(s: string): string {
    if |s| >= 3 then s else if |s| == 2 then " " + s else if |s| == 1 then "  " + s else "   "
  }

  function Selected(f: Flags, gs: seq<Group>): seq<Group> {
    if gs == [] then [] else (if Shown(f, gs[0].count) then [gs[0]] else []) + Selected(f, gs[1..])
  }

  function Output(f: Flags, gs: seq<Group>): string {
    if gs == [] then "" else (if Shown(f, gs[0].count) then Printed(f, gs[0]) else "") + Output(f, gs[1..])
  }

  /** s and t, each in order, make up the whole list. */
  predicate Interleave(s: seq<Group>, t: seq<Group>, whole: seq<Group>)
    decreases whole
  {
    if whole == [] then s == [] && t == []
    else
      || (s != [] && s[0] == whole[0] && Interleave(s[1..], t, whole[1..]))
      || (t != [] && t[0] == whole[0] && Interleave(s, t[1..], whole[1..]))
  }

  lemma InterleaveFront(g: Group, s: seq<Group>, t: seq<Group>, whole: seq<Group>)
    requires Interleave(s, t, whole)
    ensures Interleave([g] + s, t, [g] + whole) && Interleave(s, [g] + t, [g] + whole)
  {
    assert ([g] + s)[1..] == s && ([g] + t)[1..] == t && ([g] + whole)[1..] == whole;
  }

  /** The groups shown with -d and those shown with -u partition those shown by default, in
      order; with both flags, -u decides. */
  lemma {:induction false} FiltersPartition(count: bool, gs: seq<Group>)
    requires forall i :: 0 <= i < |gs| ==> gs[i].count > 0
    ensures Interleave(Selected(Flags(count, true, false), gs), Selected(Flags(count, false, true), gs), gs)
    ensures Selected(Flags(count, false, false), gs) == gs
    ensures Selected(Flags(count, true, true), gs) == Selected(Flags(count, false, true), gs)
  {
    if gs != [] {
      var d, u := Selected(Flags(count, true, false), gs[1..]), Selected(Flags(count, false, true), gs[1..]);
      FiltersPartition(count, gs[1..]);
      InterleaveFront(gs[0], d, u, gs[1..]);
      assert gs == [gs[0]] + gs[1..];
      assert [] + d == d && [] + u == u;
    }
  }

  /** What is shown passed the filter. */
  lemma {:induction false} SelectedAreShown(f: Flags, gs: seq<Group>)
    ensures forall g :: g in Selected(f, gs) <==> g in gs && Shown(f, g.count)
  {
    if gs != [] {
      SelectedAreShown(f, gs[1..]);
      assert gs == [gs[0]] + gs[1..];
    }
  }

  /** -u selects exactly the lines that stand alone, -d exactly those that repeat, and neither every
      line. */
  lemma {:induction false} FiltersSelect(count: bool, gs: seq<Group>, g: Group)
    ensures g in Selected(Flags(count, false, true), gs) <==> g in gs && g.count == 1
    ensures g in Selected(Flags(count, true, false), gs) <==> g in gs && g.count > 1
    ensures g in Selected(Flags(count, false, false), gs) <==> g in gs
  {
    SelectedAreShown(Flags(count, false, true), gs);
    SelectedAreShown(Flags(count, true, false), gs);
    SelectedAreShown(Flags(count, false, false), gs);
  }

  lemma DigitsLength(n: nat)
    ensures n < 10 ==> |Digits(n)| == 1
    ensures 10 <= n < 100 ==> |Digits(n)| == 2
    ensures n >= 100 ==> |Digits(n)| >= 3
  {
    if 10 <= n < 100 {
      assert |Digits(n / 10)| == 1;
    } else if n >= 100 {
      DigitsLength(n / 10);
    }
  }

  /** With -c a line comes after its count, padded to three places, and a blank; without, alone. */
  lemma {:induction false} PrintedIs(f: Flags, g: Group)
    ensures !f.printCount ==> Printed(f, g) == g.line
    ensures f.printCount && g.count < 10 ==> Printed(f, g) == "  " + Digits(g.count) + " " + g.line
    ensures f.printCount && 10 <= g.count < 100 ==> Printed(f, g) == " " + Digits(g.count) + " " + g.line
    ensures f.printCount && g.count >= 100 ==> Printed(f, g) == Digits(g.count) + " " + g.line
  {
    DigitsLength(g.count);
  }

  function PrintedWith(f: Flags): Group -> string { (g: Group) => Printed(f, g) }

  /** The output is the printed groups that were selected, one after another. */
  lemma {:induction false} OutputConcatenates(f: Flags, gs: seq<Group>)
    ensures Output(f, gs) == FlatMap(PrintedWith(f), Selected(f, gs))
  {
    if gs != [] {
      var rest := Selected(f, gs[1..]);
      OutputConcatenates(f, gs[1..]);
      FlatMapFront(PrintedWith(f), gs[0], rest);
      assert [] + rest == rest;
    }
  }

  lemma OutputFront(f: Flags, g: Group, gs: seq<Group>)
    ensures Output(f, [g] + gs) == (if Shown(f, g.count) then Printed(f, g) else "") + Output(f, gs)
  {
    assert ([g] + gs)[1..] == gs;
  }

  /** The output prints the selected groups and nothing else. */
  lemma {:induction false} OutputShowsSelected(f: Flags, gs: seq<Group>)
    ensures Output(f, gs) == Output(Flags(f.printCount, false, false), Selected(f, gs))
  {
    if gs != [] {
      var rest := Selected(f, gs[1..]);
      OutputShowsSelected(f, gs[1..]);
      OutputFront(Flags(f.printCount, false, false), gs[0], rest);
      assert [] + rest == rest;
    }
  }

  // ----- the code -----

  /** One group in hand and the lines still to come. */
  function Pending(count: nat, prev: string, rest: seq<string>): seq<Group> {
    Groups(Repeat(prev, count) + rest)
  }

  lemma PendingStep(count: nat, prev: string, line: string, rest: seq<string>)
    requires count > 0
    ensures Pending(count, prev, [line] + rest) ==
      if line == prev then Pending(count + 1, prev, rest)
      else [Group(count, prev)] + Pending(1, line, rest)
  {
    var lines := Repeat(prev, count) + ([line] + rest);
    if line == prev {
      assert lines == Repeat(prev, count + 1) + rest;
    } else {
      RunLengthIs(lines, count);
      assert lines[count..] == Repeat(line, 1) + rest;
    }
  }

  lemma PendingEnd(count: nat, prev: string)
    requires count > 0
    ensures Pending(count, prev, []) == [Group(count, prev)]
  {
    var lines := Repeat(prev, count) + [];
    RunLengthIs(lines, count);
    assert lines[count..] == [];
    assert Groups(lines) == [Group(count, prev)] + Groups([]);
  }

  lemma PendingStart(lines: seq<string>)
    ensures Pending(0, "", lines) == Groups(lines)
    ensures lines != [] ==> Pending(1, lines[0], lines[1..]) == Groups(lines)
  {
    assert Repeat("", 0) + lines == lines;
    if lines != [] {
      assert Repeat(lines[0], 1) + lines[1..] == lines;
    }
  }

  /** What closing a group prints. */
  function Flush(f: Flags, count: nat, prev: string): string {
    if Shown(f, count) then Printed(f, Group(count, prev)) else ""
  }

  lemma OutputStep(f: Flags, out: string, count: nat, prev: string, line: string, rest: seq<string>)
    requires count > 0
    ensures out + Output(f, Pending(count, prev, [line] + rest)) ==
      if line == prev then out + Output(f, Pending(count + 1, prev, rest))
      else (out + Flush(f, count, prev)) + Output(f, Pending(1, line, rest))
  {
    PendingStep(count, prev, line, rest);
    if line != prev {
      OutputFront(f, Group(count, prev), Pending(1, line, rest));
    }
  }

  lemma OutputEnd(f: Flags, out: string, count: nat, prev: string)
    requires count > 0
    ensures out + Output(f, Pending(count, prev, [])) == out + Flush(f, count, prev)
  {
    PendingEnd(count, prev);
    OutputFront(f, Group(count, prev), []);
    assert [Group(count, prev)] + [] == [Group(count, prev)];
  }

  /** The body of the loop over fgets. */
  method Take(f: Flags, out: string, count: nat, prev: string, buf: string) returns (next: string, c: nat)
    ensures next == if prev != "" && buf != prev then out + Flush(f, count, prev) else out
    ensures c == if prev != "" && buf != prev then 1 else count + 1
  {
    next := out;
    if prev != "" && buf != prev {
      if Shown(f, count) {
        next := next + Printed(f, Group(count, prev));
      }
      c := 1;
    } else {
      c := count + 1;
    }
  }

  /** The loop over fgets and the final flush; a line read is never empty. */
  method Run(lines: seq<string>, f: Flags) returns (out: string)
    requires forall l :: l in lines ==> l != ""
    ensures out == Output(f, Groups(lines))
  {
    out := "";
    var prev, count := "", 0;
    ghost var goal := Output(f, Groups(lines));
    PendingStart(lines);
    for i := 0 to |lines|
      invariant count == 0 <==> i == 0
      invariant prev == "" <==> i == 0
      invariant i == 0 ==> out == ""
      invariant i > 0 ==> out + Output(f, Pending(count, prev, lines[i..])) == goal
    {
      var buf := lines[i];
      assert buf in lines;
      assert lines[i..] == [buf] + lines[i + 1..];
      if i > 0 {
        OutputStep(f, out, count, prev, buf, lines[i + 1..]);
      }
      out, count := Take(f, out, count, prev, buf);
      prev := buf;
    }
    if count > 0 {
      assert lines[|lines|..] == [];
      OutputEnd(f, out, count, prev);
      if Shown(f, count) {
        out := out + Printed(f, Group(count, prev));
      }
    }
  }
}
