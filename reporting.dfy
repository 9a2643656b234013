/** The ranking reporter: the ledger's entries in the order of
    `sorted((-count, text) for text, count in bot_data.items())`, the cut-off
    that `get_stats` applies to them, and the text both reports render. */
module Reporting {
  import opened Text
  import opened Ledger

  datatype Entry = Entry(text: string, count: int)

  /** `(-a.count, a.text) < (-b.count, b.text)` in Python: higher counts
      first, equal counts by ascending text. */
  predicate Before(a: Entry, b: Entry): (r: bool)
    ensures a.count > b.count ==> r
    ensures r ==> a.count >= b.count
  {
    a.count > b.count || (a.count == b.count && StrLess(a.text, b.text))
  }

  lemma BeforeIrreflexive(a: Entry)
    ensures !Before(a, a)
  {
    StrLessIrreflexive(a.text);
  }

  lemma BeforeAsymmetric(a: Entry, b: Entry)
    ensures Before(a, b) ==> !Before(b, a)
  {
    StrLessAsymmetric(a.text, b.text);
  }

  lemma BeforeTransitive(a: Entry, b: Entry, c: Entry)
    requires Before(a, b) && Before(b, c)
    ensures Before(a, c)
  {
    if a.count == b.count == c.count {
      StrLessTransitive(a.text, b.text, c.text);
    }
  }

  /** Entries for different texts are always ordered one way or the other. */
  lemma BeforeTotal(a: Entry, b: Entry)
    requires a.text != b.text
    ensures Before(a, b) || Before(b, a)
  {
    StrLessTotal(a.text, b.text);
  }

  ghost predicate Sorted(s: seq<Entry>) {
    forall i, j :: 0 <= i < j < |s| ==> Before(s[i], s[j])
  }

  /** `s` lists the entries of `m` in ranking order: counts descending, ties
      by text ascending. */
  ghost predicate IsRanking(m: Usage, s: seq<Entry>) {
    && Sorted(s)
    && forall e :: e in s <==> e.text in m && m[e.text] == e.count
  }

  /** One step of an insertion sort under `Before`. */
  function Insert(s: seq<Entry>, e: Entry): (r: seq<Entry>)
    ensures |r| == |s| + 1
    ensures forall x :: x in r <==> x in s || x == e
    ensures Sorted(s) && (forall x :: x in s ==> x.text != e.text) ==> Sorted(r)
    decreases |s|
  {
    if s == [] then [e]
    else if Before(e, s[0]) then
      var r := [e] + s;
      assert Sorted(s) ==> Sorted(r) by {
        if Sorted(s) {
          forall i, j | 0 <= i < j < |r| ensures Before(r[i], r[j]) {
            if i == 0 && j > 1 { BeforeTransitive(e, s[0], s[j - 1]); }
          }
        }
      }
      r
    else
      var tail := Insert(s[1..], e);
      var r := [s[0]] + tail;
      assert Sorted(s) && (forall x :: x in s ==> x.text != e.text) ==> Sorted(r) by {
        if Sorted(s) && (forall x :: x in s ==> x.text != e.text) {
          assert Sorted(s[1..]);
          BeforeTotal(e, s[0]);
          forall i, j | 0 <= i < j < |r| ensures Before(r[i], r[j]) {
            if i == 0 {
              assert r[j] in tail;
              if r[j] != e {
                var k :| 1 <= k < |s| && s[k] == r[j];
              }
            }
          }
        }
      }
      r
  }

  /** Inserting the entry of a new text into a ranking of `m` ranks `m` with
      that entry added. */
  lemma InsertRanks(m: Usage, s: seq<Entry>, t: string, n: int)
    requires IsRanking(m, s) && t !in m
    ensures IsRanking(m[t := n], Insert(s, Entry(t, n)))
  {
    var r := Insert(s, Entry(t, n));
    forall x | x in s ensures x.text != t {
    }
    forall e ensures e in r <==> e.text in m[t := n] && m[t := n][e.text] == e.count {
    }
  }

  /** The ranked list of the ledger, as `sorted` produces it. */
  ghost function Ranking(m: Usage): (s: seq<Entry>)
    ensures IsRanking(m, s)
    decreases |m|
  {
    if m == map[] then []
    else
      var t :| t in m;
      var rest := Ranking(m - {t});
      InsertRanks(m - {t}, rest, t, m[t]);
      assert (m - {t})[t := m[t]] == m;
      Insert(rest, Entry(t, m[t]))
  }

  /** The first entry of a ranking and the ranking of the remaining entries. */
  lemma RankingTail(m: Usage, s: seq<Entry>)
    requires IsRanking(m, s) && s != []
    ensures s[0].text in m && m[s[0].text] == s[0].count
    ensures forall j :: 1 <= j < |s| ==> s[j].text != s[0].text
    ensures IsRanking(m - {s[0].text}, s[1..])
  {
    assert s[0] in s;
    forall j | 1 <= j < |s| ensures s[j].text != s[0].text {
      assert s[j] in s;
      assert Before(s[0], s[j]);
      StrLessIrreflexive(s[0].text);
    }
    forall e ensures e in s[1..] <==> e.text in m - {s[0].text} && m[e.text] == e.count {
      if e in s && e != s[0] {
        var j :| 0 <= j < |s| && s[j] == e;
      }
    }
  }

  /** The texts listed in a ranking are exactly the keys of the ledger. */
  lemma RankingKeys(m: Usage, s: seq<Entry>)
    requires IsRanking(m, s)
    ensures m.Keys == set e | e in s :: e.text
  {
    forall t | t in m ensures t in set e | e in s :: e.text {
      assert Entry(t, m[t]) in s;
    }
  }

  /** Every text of the ledger is listed exactly once: the ranking has one
      entry per key and no text twice. */
  lemma {:induction false} RankingLength(m: Usage, s: seq<Entry>)
    requires IsRanking(m, s)
    ensures |s| == |m|
    ensures forall i, j :: 0 <= i < j < |s| ==> s[i].text != s[j].text
    decreases |s|
  {
    if s == [] {
      RankingKeys(m, s);
      assert m.Keys == {};
    } else {
      RankingTail(m, s);
      RankingLength(m - {s[0].text}, s[1..]);
      forall i, j | 0 <= i < j < |s| ensures s[i].text != s[j].text {
        if i > 0 { assert s[i] == s[1..][i - 1] && s[j] == s[1..][j - 1]; }
      }
    }
  }

  /** Two rankings of the same ledger are the same list: the order is fully
      determined by counts and texts. */
  lemma {:induction false} RankingUnique(m: Usage, s1: seq<Entry>, s2: seq<Entry>)
    requires IsRanking(m, s1) && IsRanking(m, s2)
    ensures s1 == s2
    decreases |s1|
  {
    if s1 == [] {
      RankingLength(m, s1);
      RankingLength(m, s2);
    } else {
      assert s2 != [] by { assert s1[0] in s1; }
      if s1[0] != s2[0] {
        assert s2[0] in s1 && s1[0] in s2;
        var i :| 0 <= i < |s1| && s1[i] == s2[0];
        var j :| 0 <= j < |s2| && s2[j] == s1[0];
        BeforeAsymmetric(s1[0], s2[0]);
        assert false;
      }
      RankingTail(m, s1);
      RankingTail(m, s2);
      RankingUnique(m - {s1[0].text}, s1[1..], s2[1..]);
      assert s1 == [s1[0]] + s1[1..];
    }
  }

  /** The ranking is ordered by count, highest first, and equal counts are
      listed by ascending text. */
  lemma RankingOrder(m: Usage, i: int, j: int)
    requires 0 <= i < j < |Ranking(m)|
    ensures Ranking(m)[i].count >= Ranking(m)[j].count
    ensures Ranking(m)[i].count == Ranking(m)[j].count ==>
              StrLess(Ranking(m)[i].text, Ranking(m)[j].text)
  {
  }

  /** The sum of the counts of a list of entries. */
  function SumCounts(s: seq<Entry>): int
    decreases |s|
  {
    if s == [] then 0 else s[0].count + SumCounts(s[1..])
  }

  /** Summing the ranked entries gives the ledger's total. */
  lemma {:induction false} RankingTotal(m: Usage, s: seq<Entry>)
    requires IsRanking(m, s)
    ensures SumCounts(s) == Total(m)
    decreases |s|
  {
    if s == [] {
      RankingLength(m, s);
      assert m == map[];
    } else {
      RankingTail(m, s);
      TotalWithout(m, s[0].text);
      RankingTotal(m - {s[0].text}, s[1..]);
    }
  }

  /** `get_stats` always prints the first three entries. */
  const TopN := 3

  /** Where `get_stats` stops, starting at position `i`: at the first entry
      whose count differs from the one before it. */
  function CutFrom(s: seq<Entry>, i: nat): (k: nat)
    requires TopN <= i <= |s|
    ensures i <= k <= |s|
    ensures forall j :: i - 1 <= j < k ==> s[j].count == s[i - 1].count
    ensures k < |s| ==> s[k].count != s[k - 1].count
    decreases |s| - i
  {
    if i == |s| || s[i].count != s[i - 1].count then i else CutFrom(s, i + 1)
  }

  /** How many of the ranked entries `get_stats` prints: the first three, and
      after them every entry tied with the third. */
  function TopCount(s: seq<Entry>): (k: nat)
    ensures k <= |s| && (k >= TopN || k == |s|)
    ensures |s| <= TopN ==> k == |s|
    ensures forall j :: TopN - 1 <= j < k ==> s[j].count == s[TopN - 1].count
    ensures k < |s| ==> s[k].count != s[k - 1].count
  {
    if |s| <= TopN then |s| else CutFrom(s, TopN)
  }

  /** The cut-off never splits a tie group: every printed entry has a higher
      count than every entry left out. */
  lemma TopCountKeepsTies(s: seq<Entry>)
    requires Sorted(s)
    ensures forall i, j :: 0 <= i < TopCount(s) <= j < |s| ==> s[i].count > s[j].count
  {
    var k := TopCount(s);
    forall i, j | 0 <= i < k <= j < |s| ensures s[i].count > s[j].count {
      assert Before(s[k - 1], s[k]);
      if i < k - 1 { assert Before(s[i], s[k - 1]); }
      if j > k { assert Before(s[k], s[j]); }
    }
  }

  /** The test that ends the loop of `get_stats` at position `idx` (a count
      differing from the previous one, once three entries are out) holds
      exactly when `idx` is the cut-off. */
  lemma CutoffAt(s: seq<Entry>, idx: nat)
    requires idx <= TopCount(s) && idx < |s|
    ensures (idx >= TopN && s[idx].count != s[idx - 1].count) <==> idx == TopCount(s)
  {
    var k := TopCount(s);
    if idx < k && idx >= TopN {
      assert s[idx].count == s[TopN - 1].count && s[idx - 1].count == s[TopN - 1].count;
    }
  }

  /** One line of a report: `f"{text}: {-count} 次\n"`. */
  function EntryLine(e: Entry): (r: string)
    ensures |r| > |e.text| && r[..|e.text|] == e.text
    ensures r[|r| - 1] == '\n'
    ensures forall i :: |e.text| <= i < |r| - 1 ==> r[i] != '\n'
  {
    var d := Decimal(e.count);
    var r := e.text + ": " + d + " 次\n";
    assert forall i :: |e.text| + 2 <= i < |e.text| + 2 + |d| ==> r[i] == d[i - |e.text| - 2];
    r
  }

  /** The lines for a list of entries, in order. */
  function Lines(s: seq<Entry>): string
    decreases |s|
  {
    if s == [] then "" else Lines(s[..|s| - 1]) + EntryLine(s[|s| - 1])
  }

  /** The lines of one more entry end with that entry's line. */
  lemma LinesSnoc(prefix: string, s: seq<Entry>, i: nat)
    requires i < |s|
    ensures prefix + Lines(s[..i + 1]) == prefix + Lines(s[..i]) + EntryLine(s[i])
  {
    assert s[..i + 1][..i] == s[..i];
  }

  /** The first line of the `get_stats` text. */
  function TopHeader(total: int): (r: string)
    ensures r != [] && r[|r| - 1] == '\n'
    ensures forall i :: 0 <= i < |r| - 1 ==> r[i] != '\n'
  {
    var lead, d := "据不完全统计，目前全网累计查水表次数: ", Decimal(total);
    var r := lead + d + " 次。其中排名前 3 的语句为：\n";
    assert forall i :: |lead| <= i < |lead| + |d| ==> r[i] == d[i - |lead|];
    r
  }

  /** The last line of the `stats` text, which has no line break after it. */
  function TotalLine(total: int): (r: string)
    ensures forall i :: 0 <= i < |r| ==> r[i] != '\n'
  {
    var lead, d := "共查水表 ", Decimal(total);
    var r := lead + d + " 次。";
    assert forall i :: |lead| <= i < |lead| + |d| ==> r[i] == d[i - |lead|];
    r
  }

  /** The lines of a list start with the lines of each of its prefixes. */
  lemma {:induction false} LinesPrefix(s: seq<Entry>, k: nat)
    requires k <= |s|
    ensures Lines(s[..k]) <= Lines(s)
    decreases |s|
  {
    if k < |s| {
      var init := s[..|s| - 1];
      assert init[..k] == s[..k];
      LinesPrefix(init, k);
    } else {
      assert s[..k] == s;
    }
  }

  /** The text of the statistics entry offered in every inline answer: a
      ledger of at most three entries is shown in full. */
  ghost function TopReport(m: Usage): (r: string)
    ensures TopHeader(Total(m)) <= r
    ensures |m| <= TopN ==> r == TopHeader(Total(m)) + Lines(Ranking(m))
  {
    var s := Ranking(m);
    RankingLength(m, s);
    assert s[..|s|] == s;
    TopHeader(Total(m)) + Lines(s[..TopCount(s)])
  }

  /** The reply to the `/stats` command: it lists, in the same order, every
      entry the statistics entry shows, and then the rest. */
  ghost function FullReport(m: Usage): (r: string)
    ensures var s := Ranking(m); Lines(s[..TopCount(s)]) <= r
  {
    var s := Ranking(m);
    LinesPrefix(s, TopCount(s));
    Lines(s) + TotalLine(Total(m))
  }

  /** An empty ledger reports zero uses and no entries. */
  lemma EmptyReports()
    ensures Ranking(map[]) == [] && Total(map[]) == 0
    ensures TopReport(map[]) == TopHeader(0)
    ensures FullReport(map[]) == TotalLine(0)
  {
    RankingLength(map[], Ranking(map[]));
  }

  /** Ledger {A: 5, B: 5, C: 3, D: 3}: C and D tie for third place, so both
      are printed, and the total is 16. */
  lemma TieExample()
    ensures var m := map["A" := 5, "B" := 5, "C" := 3, "D" := 3];
            var s := Ranking(m);
            && s == [Entry("A", 5), Entry("B", 5), Entry("C", 3), Entry("D", 3)]
            && TopCount(s) == 4
            && Total(m) == 16
  {
    var m := map["A" := 5, "B" := 5, "C" := 3, "D" := 3];
    var s := [Entry("A", 5), Entry("B", 5), Entry("C", 3), Entry("D", 3)];
    assert StrLess("C", "D");
    assert Sorted(s);
    forall e ensures e in s <==> e.text in m && m[e.text] == e.count {
      if e.text in m && m[e.text] == e.count {
        assert e.text == "A" || e.text == "B" || e.text == "C" || e.text == "D";
      }
    }
    RankingUnique(m, s, Ranking(m));
    RankingTotal(m, s);
  }

  /** The loop of `get_stats` over the ranked entries: print an entry, unless
      three are out already and its count differs from the previous one, in
      which case stop. */
  method RenderTop(ranked: seq<Entry>, total: int) returns (result: string)
    ensures result == TopHeader(total) + Lines(ranked[..TopCount(ranked)])
  {
    result := TopHeader(total);
    ghost var header := result;
    ghost var stop := TopCount(ranked);
    var idx, preCount := 0, 0;
    while idx < |ranked|
      invariant idx <= stop
      invariant idx > 0 ==> preCount == -ranked[idx - 1].count
      invariant result == header + Lines(ranked[..idx])
    {
      var count := -ranked[idx].count;
      CutoffAt(ranked, idx);
      if idx >= TopN && count != preCount {
        break;
      }
      LinesSnoc(header, ranked, idx);
      result := result + EntryLine(ranked[idx]);
      idx := idx + 1;
      preCount := count;
    }
  }

  /** `sorted(...)` over the ledger, by insertion, one entry at a time. */
  method Sort(m: Usage) returns (s: seq<Entry>)
    ensures IsRanking(m, s)
  {
    s := [];
    var rest := m;
    while rest != map[]
      invariant rest.Keys <= m.Keys && forall t :: t in rest ==> rest[t] == m[t]
      invariant IsRanking(m - rest.Keys, s)
      decreases |rest|
    {
      var t :| t in rest;
      InsertRanks(m - rest.Keys, s, t, m[t]);
      assert (m - rest.Keys)[t := m[t]] == m - (rest - {t}).Keys;
      s := Insert(s, Entry(t, m[t]));
      rest := rest - {t};
    }
    assert m - rest.Keys == m;
  }

  /** `sum(bot_data.values())`. */
  method Sum(m: Usage) returns (total: int)
    ensures total == Total(m)
  {
    total := 0;
    var rest := m;
    while rest != map[]
      invariant total + Total(rest) == Total(m)
      decreases |rest|
    {
      var t :| t in rest;
      TotalWithout(rest, t);
      total := total + rest[t];
      rest := rest - {t};
    }
  }
}
